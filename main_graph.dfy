/**
 * The adjacency-matrix graph of src/main/io/github/ethankelly/Graph.java, the one
 * that is spliced at its cut vertices.  Every write goes through getAdjMatrix /
 * setAdjMatrix, so the matrices are held as values that addEdge and removeEdge
 * replace.  The three pieces of state those two methods touch form a Matrices
 * value, and removeBridges, makeSubGraph and isMinimallyConnected are specified
 * by functions over it.
 */
module MainGraph {
  import opened Wrappers
  import Components
  import CutVertices

  /** An n x n matrix. */
  predicate Square<T>(M: seq<seq<T>>)
  {
    forall i :: 0 <= i < |M| ==> |M[i]| == |M|
  }

  /** M with the cells [i][j] and then [j][i] set to x. */
  function SetPair<T>(M: seq<seq<T>>, i: int, j: int, x: T): (r: seq<seq<T>>)
    requires Square(M) && 0 <= i < |M| && 0 <= j < |M|
    ensures |r| == |M| && Square(r)
    ensures forall a, b :: 0 <= a < |M| && 0 <= b < |M| ==>
              r[a][b] == if (a == i && b == j) || (a == j && b == i) then x else M[a][b]
  {
    var M1 := M[i := M[i][j := x]];
    M1[j := M1[j][i := x]]
  }

  /** Setting back the cells an edge had restores the matrix. */
  lemma RestorePair(M: seq<seq<bool>>, i: int, j: int)
    requires Square(M) && 0 <= i < |M| && 0 <= j < |M| && M[i][j] && M[j][i]
    ensures SetPair(SetPair(M, i, j, false), i, j, true) == M
  {
    var R := SetPair(SetPair(M, i, j, false), i, j, true);
    forall a | 0 <= a < |M| ensures R[a] == M[a] {
      assert forall b :: 0 <= b < |M| ==> R[a][b] == M[a][b];
    }
  }

  /** The adjacency matrix, the transmission matrix and the edge counter. */
  datatype Matrices = Matrices(adj: seq<seq<bool>>, trans: seq<seq<int>>, numEdges: int)

  /** Both matrices n x n. */
  predicate Shaped(s: Matrices)
  {
    Square(s.adj) && Square(s.trans) && |s.trans| == |s.adj|
  }

  /** Both matrices n x n, and the adjacency matrix symmetric. */
  predicate WellFormed(s: Matrices)
  {
    Shaped(s) && Components.Symmetric(s.adj)
  }

  /** isEdge(i, j): either cell is set. */
  predicate IsEdgeIn(M: seq<seq<bool>>, i: int, j: int)
    requires Square(M) && 0 <= i < |M| && 0 <= j < |M|
  {
    M[i][j] || M[j][i]
  }

  /** getConnectedComponents().size() */
  function NumComponents(M: seq<seq<bool>>): nat
    requires Square(M)
  {
    |Components.ComponentsOf(M)|
  }

  /** new Graph(n, name): an all-false adjacency matrix, an all-zero transmission matrix, no edges. */
  function Empty(n: nat): (s: Matrices)
    ensures Shaped(s) && |s.adj| == n && s.numEdges == 0
    ensures forall a, b :: 0 <= a < n && 0 <= b < n ==> !s.adj[a][b] && s.trans[a][b] == 0
  {
    Matrices(seq(n, _ => seq(n, _ => false)), seq(n, _ => seq(n, _ => 0)), 0)
  }

  /** addEdge(i, j): both adjacency cells true, both transmission cells 1, one more edge. */
  function Added(s: Matrices, i: int, j: int): (r: Matrices)
    requires Shaped(s) && 0 <= i < |s.adj| && 0 <= j < |s.adj|
    ensures Shaped(r) && |r.adj| == |s.adj| && r.numEdges == s.numEdges + 1
    ensures IsEdgeIn(r.adj, i, j) && r.trans[i][j] == 1 && r.trans[j][i] == 1
    ensures forall a, b :: 0 <= a < |s.adj| && 0 <= b < |s.adj| && !(a == i && b == j) && !(a == j && b == i) ==>
              r.adj[a][b] == s.adj[a][b] && r.trans[a][b] == s.trans[a][b]
  {
    Matrices(SetPair(s.adj, i, j, true), SetPair(s.trans, i, j, 1), s.numEdges + 1)
  }

  /** removeEdge(i, j): both adjacency cells false, both transmission cells 0, the edge counter unchanged. */
  function Removed(s: Matrices, i: int, j: int): (r: Matrices)
    requires Shaped(s) && 0 <= i < |s.adj| && 0 <= j < |s.adj|
    ensures Shaped(r) && |r.adj| == |s.adj| && r.numEdges == s.numEdges
    ensures !IsEdgeIn(r.adj, i, j) && r.trans[i][j] == 0 && r.trans[j][i] == 0
    ensures forall a, b :: 0 <= a < |s.adj| && 0 <= b < |s.adj| && !(a == i && b == j) && !(a == j && b == i) ==>
              r.adj[a][b] == s.adj[a][b] && r.trans[a][b] == s.trans[a][b]
  {
    Matrices(SetPair(s.adj, i, j, false), SetPair(s.trans, i, j, 0), s.numEdges)
  }

  /** addEdge(i, j) called k times in a row. */
  function AddedTimes(s: Matrices, i: int, j: int, k: nat): (r: Matrices)
    requires Shaped(s) && 0 <= i < |s.adj| && 0 <= j < |s.adj|
    ensures Shaped(r) && |r.adj| == |s.adj| && r.numEdges == s.numEdges + k
  {
    if k == 0 then s else Added(AddedTimes(s, i, j, k - 1), i, j)
  }

  /** The number of one-vertex lists. */
  function Singletons(comps: seq<seq<int>>): nat
  {
    if comps == [] then 0
    else Singletons(comps[..|comps| - 1]) + (if |comps[|comps| - 1]| == 1 then 1 else 0)
  }

  /**
   * One pass of removeBridges(i)'s loop, at column j.  c0 is the number of
   * components counted once, before the loop.  An edge (i, j) is removed, then put
   * back when the count after removing it equals c0, and otherwise once for every
   * one-vertex component.
   */
  function BridgeStep(s: Matrices, i: int, j: int, c0: int): (r: Matrices)
    requires Shaped(s) && 0 <= i < |s.adj| && 0 <= j < |s.adj|
    ensures Shaped(r) && |r.adj| == |s.adj| && r.numEdges >= s.numEdges
  {
    if IsEdgeIn(s.adj, i, j) then
      var removed := Removed(s, i, j);
      var comps := Components.ComponentsOf(removed.adj);
      if |comps| == c0 then Added(removed, i, j)
      else AddedTimes(removed, i, j, Singletons(comps))
    else s
  }

  /** The loop of removeBridges(i) as written, from column j on, against the count c0 taken before the loop. */
  function BridgesFrom(s: Matrices, i: int, j: nat, c0: int): (r: Matrices)
    requires Shaped(s) && 0 <= i < |s.adj| && j <= |s.adj|
    ensures Shaped(r) && |r.adj| == |s.adj| && r.numEdges >= s.numEdges
    decreases |s.adj| - j
  {
    if j == |s.adj| then s else BridgesFrom(BridgeStep(s, i, j, c0), i, j + 1, c0)
  }

  /** removeBridges(i) as written: the count is taken once, before the loop. */
  function BridgesRemovedAsWritten(s: Matrices, i: int): (r: Matrices)
    requires Shaped(s) && 0 <= i < |s.adj|
    ensures Shaped(r) && |r.adj| == |s.adj|
  {
    BridgesFrom(s, i, 0, NumComponents(s.adj))
  }

  /** The loop of removeBridges(i) as intended, from column j on: each edge is judged against the current count. */
  function BridgesFromRecounted(s: Matrices, i: int, j: nat): (r: Matrices)
    requires Shaped(s) && 0 <= i < |s.adj| && j <= |s.adj|
    ensures Shaped(r) && |r.adj| == |s.adj| && r.numEdges >= s.numEdges
    decreases |s.adj| - j
  {
    if j == |s.adj| then s else BridgesFromRecounted(BridgeStep(s, i, j, NumComponents(s.adj)), i, j + 1)
  }

  /** removeBridges(i) as intended: only bridges at i are removed. */
  function BridgesRemoved(s: Matrices, i: int): (r: Matrices)
    requires Shaped(s) && 0 <= i < |s.adj|
    ensures Shaped(r) && |r.adj| == |s.adj|
  {
    BridgesFromRecounted(s, i, 0)
  }

  /** removeBridges as written at every listed vertex, in order: the first loop of splice. */
  function RemoveBridgesAllAsWritten(s: Matrices, cuts: seq<int>): (r: Matrices)
    requires Shaped(s) && Within(cuts, |s.adj|)
    ensures Shaped(r) && |r.adj| == |s.adj|
    decreases |cuts|
  {
    if cuts == [] then s else RemoveBridgesAllAsWritten(BridgesRemovedAsWritten(s, cuts[0]), cuts[1..])
  }

  /** removeBridges (as intended) at every listed vertex, in order. */
  function RemoveBridgesAll(s: Matrices, cuts: seq<int>): (r: Matrices)
    requires Shaped(s) && Within(cuts, |s.adj|)
    ensures Shaped(r) && |r.adj| == |s.adj|
    decreases |cuts|
  {
    if cuts == [] then s else RemoveBridgesAll(BridgesRemoved(s, cuts[0]), cuts[1..])
  }

  /**
   * In the intended removeBridges, an edge at i whose removal leaves the current
   * number of components as it is gets put back: the matrix is as before the step.
   */
  lemma RecountedStepKeepsNonBridge(s: Matrices, i: int, j: int)
    requires WellFormed(s) && 0 <= i < |s.adj| && 0 <= j < |s.adj|
    requires IsEdgeIn(s.adj, i, j) && NumComponents(Removed(s, i, j).adj) == NumComponents(s.adj)
    ensures BridgeStep(s, i, j, NumComponents(s.adj)).adj == s.adj
  {
    RestorePair(s.adj, i, j);
  }

  /** In the intended removeBridges, an edge at i whose removal raises the count stays removed unless a vertex is left alone. */
  lemma RecountedStepRemovesBridge(s: Matrices, i: int, j: int)
    requires WellFormed(s) && 0 <= i < |s.adj| && 0 <= j < |s.adj|
    requires IsEdgeIn(s.adj, i, j) && NumComponents(Removed(s, i, j).adj) != NumComponents(s.adj)
    requires Singletons(Components.ComponentsOf(Removed(s, i, j).adj)) == 0
    ensures BridgeStep(s, i, j, NumComponents(s.adj)) == Removed(s, i, j)
  {
  }

  /** The graph G2 of the repository's tests: edges 0-1, 0-4, 1-2, 1-4, 2-3, a triangle 0-1-4 with the tail 1-2-3. */
  function TriangleWithTail(): seq<seq<bool>>
  {
    [[false, true, false, false, true],
     [true, false, true, false, true],
     [false, true, false, true, false],
     [false, false, true, false, false],
     [true, true, false, false, false]]
  }

  /** Every vertex is reached from 0 along the listed walks, so there is one component. */
  lemma TriangleWithTailConnected(E: seq<seq<bool>>)
    requires E == TriangleWithTail()
    ensures Square(E) && NumComponents(E) == 1
  {
    forall x | 0 <= x < 5 ensures Components.Reaches(E, 0, x) {
      var p := if x == 0 then [0] else if x == 4 then [0, 4] else if x == 1 then [0, 1] else if x == 2 then [0, 1, 2] else [0, 1, 2, 3];
      assert Components.IsWalk(E, p);
    }
    Components.SingleComponentIffConnected(E);
  }

  /** Without 0-1 the graph is still connected, through 0-4-1. */
  lemma TriangleWithTailLessZeroOne(E: seq<seq<bool>>, F: seq<seq<bool>>)
    requires E == TriangleWithTail() && Square(E) && F == SetPair(E, 1, 0, false)
    ensures NumComponents(F) == 1
  {
    forall x | 0 <= x < 5 ensures Components.Reaches(F, 0, x) {
      var p := if x == 0 then [0] else if x == 4 then [0, 4] else if x == 1 then [0, 4, 1] else if x == 2 then [0, 4, 1, 2] else [0, 4, 1, 2, 3];
      assert Components.IsWalk(F, p);
    }
    Components.SingleComponentIffConnected(F);
  }

  /** Without 1-4 the graph is still connected, through 1-0-4: 1-4 is not a bridge. */
  lemma TriangleWithTailLessOneFour(E: seq<seq<bool>>, F: seq<seq<bool>>)
    requires E == TriangleWithTail() && Square(E) && F == SetPair(E, 1, 4, false)
    ensures NumComponents(F) == 1
  {
    forall x | 0 <= x < 5 ensures Components.Reaches(F, 0, x) {
      var p := if x == 0 then [0] else if x == 4 then [0, 4] else if x == 1 then [0, 1] else if x == 2 then [0, 1, 2] else [0, 1, 2, 3];
      assert Components.IsWalk(F, p);
    }
    Components.SingleComponentIffConnected(F);
  }

  /**
   * A 5 x 5 matrix in which {0, 1, 4} and {2, 3} are closed and each connected
   * (by 0-1, 0-4 and 2-3) has those two components, neither of one vertex.
   */
  lemma TriangleAndEdgeComponents(F: seq<seq<bool>>)
    requires Square(F) && |F| == 5 && F[0][1] && F[0][4] && F[2][3]
    requires !F[0][2] && !F[0][3] && !F[1][2] && !F[1][3] && !F[4][2] && !F[4][3]
    ensures NumComponents(F) == 2 && Singletons(Components.ComponentsOf(F)) == 0
  {
    var S := {0, 1, 4};
    forall x, w | x in S && 0 <= x < 5 && 0 <= w < 5 && F[x][w] ensures w in S {
      assert w != 2 && w != 3;
    }
    assert Components.Closed(F, S);
    forall x | x in S ensures 0 <= x < 5 && Components.Reaches(F, 0, x) {
      var p := if x == 0 then [0] else if x == 1 then [0, 1] else [0, 4];
      assert Components.IsWalk(F, p);
    }
    forall x | 0 <= x < 5 && x !in S ensures Components.Reaches(F, 2, x) {
      var p := if x == 2 then [2] else [2, 3];
      assert Components.IsWalk(F, p);
    }
    Components.TwoComponents(F, S, 2);
    var comps := Components.ComponentsOf(F);
    assert 0 in comps[0] && 1 in comps[0] && 2 in comps[1] && 3 in comps[1];
    assert |comps[0]| != 1 && |comps[1]| != 1;
    assert comps[..1][..0] == [];
    assert Singletons(comps[..1]) == 0;
  }

  /**
   * removeBridges(1) as written on G2: the count 1 is taken first; 1-0 comes back,
   * 1-2 splits off {2, 3} and stays out, and then 1-4 also stays out because the
   * count is 2, not 1, although 1-4 lies on the triangle 0-1-4.
   */
  lemma BridgesRemovedAsWrittenDropsTriangleEdge(s: Matrices)
    requires s.adj == TriangleWithTail() && Shaped(s)
    ensures IsEdgeIn(s.adj, 1, 4) && NumComponents(SetPair(s.adj, 1, 4, false)) == NumComponents(s.adj)
    ensures !IsEdgeIn(BridgesRemovedAsWritten(s, 1).adj, 1, 4)
  {
    TriangleWithTailConnected(s.adj);
    TriangleWithTailLessOneFour(s.adj, SetPair(s.adj, 1, 4, false));
    var s1 := BridgeStepOneZero(s, 1);
    var s3 := BridgeStepOneTwo(s1, 1);
    var s5 := BridgeStep(s3, 1, 4, 1);
    TriangleAndEdgeComponents(SetPair(s3.adj, 1, 4, false));
    assert s5 == Removed(s3, 1, 4);
    assert BridgesFrom(s, 1, 0, 1) == BridgesFrom(s1, 1, 1, 1) == BridgesFrom(s1, 1, 2, 1);
    assert BridgesFrom(s1, 1, 2, 1) == BridgesFrom(s3, 1, 3, 1) == BridgesFrom(s3, 1, 4, 1);
    assert BridgesFrom(s3, 1, 4, 1) == BridgesFrom(s5, 1, 5, 1) == s5;
  }

  /** The step at column 0 of removeBridges(1) on G2, against a count of 1: 1-0 is put back. */
  lemma BridgeStepOneZero(s: Matrices, c: int) returns (r: Matrices)
    requires s.adj == TriangleWithTail() && Shaped(s) && c == 1
    ensures r == BridgeStep(s, 1, 0, c) && r.adj == s.adj && Shaped(r)
  {
    r := BridgeStep(s, 1, 0, c);
    TriangleWithTailLessZeroOne(s.adj, SetPair(s.adj, 1, 0, false));
    RestorePair(s.adj, 1, 0);
  }

  /** The step at column 2 of removeBridges(1) on G2, against a count of 1: 1-2 is a bridge and stays out. */
  lemma BridgeStepOneTwo(s: Matrices, c: int) returns (r: Matrices)
    requires s.adj == TriangleWithTail() && Shaped(s) && c == 1
    ensures r.adj == SetPair(s.adj, 1, 2, false) && Shaped(r)
    ensures BridgeStep(s, 1, 2, c) == r && BridgeStep(r, 1, 3, c) == r
  {
    r := Removed(s, 1, 2);
    TriangleAndEdgeComponents(r.adj);
    assert BridgeStep(s, 1, 2, c) == AddedTimes(r, 1, 2, 0) == r;
  }

  /**
   * removeBridges(1) as intended on G2 takes out the bridge 1-2 and nothing else:
   * when 1-4 is tried the count is already 2, and removing 1-4 leaves it at 2.
   */
  lemma BridgesRemovedKeepsTriangle(s: Matrices)
    requires s.adj == TriangleWithTail() && Shaped(s)
    ensures BridgesRemoved(s, 1).adj == SetPair(s.adj, 1, 2, false)
  {
    TriangleWithTailConnected(s.adj);
    var s1 := BridgeStepOneZero(s, 1);
    var s3 := BridgeStepOneTwo(s1, 1);
    var F := SetPair(s3.adj, 1, 4, false);
    TriangleAndEdgeComponents(s3.adj);
    TriangleAndEdgeComponents(F);
    var s5 := BridgeStep(s3, 1, 4, 2);
    RestorePair(s3.adj, 1, 4);
    assert s5.adj == s3.adj;
    assert BridgesFromRecounted(s, 1, 0) == BridgesFromRecounted(s1, 1, 1) == BridgesFromRecounted(s1, 1, 2);
    assert BridgesFromRecounted(s1, 1, 2) == BridgesFromRecounted(s3, 1, 3) == BridgesFromRecounted(s3, 1, 4);
    assert BridgesFromRecounted(s3, 1, 4) == BridgesFromRecounted(s5, 1, 5) == s5;
  }

  /**
   * When no edge at i is one whose removal changes the number of components away
   * from c0, removeBridges puts every removed edge back: the adjacency matrix is unchanged.
   */
  lemma {:induction false} NonBridgesKept(s: Matrices, i: int, j: nat, c0: int)
    requires WellFormed(s) && 0 <= i < |s.adj| && j <= |s.adj|
    requires forall b :: j <= b < |s.adj| && IsEdgeIn(s.adj, i, b) ==> NumComponents(Removed(s, i, b).adj) == c0
    ensures BridgesFrom(s, i, j, c0).adj == s.adj
    decreases |s.adj| - j
  {
    if j < |s.adj| {
      if IsEdgeIn(s.adj, i, j) {
        var back := Added(Removed(s, i, j), i, j);
        assert BridgeStep(s, i, j, c0) == back;
        RestorePair(s.adj, i, j);
        assert back.adj == s.adj;
        forall b | j + 1 <= b < |s.adj| && IsEdgeIn(back.adj, i, b)
          ensures NumComponents(Removed(back, i, b).adj) == c0
        {
          assert Removed(back, i, b).adj == Removed(s, i, b).adj;
        }
        NonBridgesKept(back, i, j + 1, c0);
      } else {
        NonBridgesKept(s, i, j + 1, c0);
      }
    }
  }

  /** Every listed vertex is one of 0..n-1. */
  predicate Within(vs: seq<int>, n: int)
  {
    forall k :: 0 <= k < |vs| ==> 0 <= vs[k] < n
  }

  /** Position v of makeSubGraph's outer loop and vertex w of its inner loop set cell (a, b). */
  predicate Hit(E: seq<seq<bool>>, vs: seq<int>, v: int, w: int, a: int, b: int)
    requires Square(E) && 0 <= v < |vs| && 0 <= w < |E| && Within(vs, |E|)
  {
    IsEdgeIn(E, vs[v], w) && w in vs
    && ((a == v && b == IndexOf(vs, w)) || (a == IndexOf(vs, w) && b == v))
  }

  /** A pair of positions still to be set by the loops of makeSubGraph from (v, w) on. */
  ghost predicate Pending(E: seq<seq<bool>>, vs: seq<int>, v: int, w: int, a: int, b: int)
    requires Square(E) && Within(vs, |E|)
  {
    exists v', w' :: 0 <= v' < |vs| && 0 <= w' < |E| && (v' > v || (v' == v && w' >= w)) && Hit(E, vs, v', w', a, b)
  }

  /**
   * The loops of makeSubGraph from (v, w) on: for each listed vertex vs[v] and each
   * vertex w it is joined to that is also listed, addEdge(v, vs.indexOf(w)).
   */
  function SubGraphFrom(s: Matrices, E: seq<seq<bool>>, vs: seq<int>, v: nat, w: nat): (r: Matrices)
    requires Shaped(s) && |s.adj| == |vs| && Square(E) && v <= |vs| && w <= |E|
    requires Within(vs, |E|)
    ensures Shaped(r) && |r.adj| == |vs|
    decreases |vs| - v, |E| - w
  {
    if v == |vs| then s
    else if w == |E| then SubGraphFrom(s, E, vs, v + 1, 0)
    else if IsEdgeIn(E, vs[v], w) && w in vs then SubGraphFrom(Added(s, v, IndexOf(vs, w)), E, vs, v, w + 1)
    else SubGraphFrom(s, E, vs, v, w + 1)
  }

  /** makeSubGraph(vs): the subgraph on the listed vertices, relabelled by position. */
  function SubGraphOf(E: seq<seq<bool>>, vs: seq<int>): (r: Matrices)
    requires Square(E) && Within(vs, |E|)
    ensures Shaped(r) && |r.adj| == |vs|
  {
    SubGraphFrom(Empty(|vs|), E, vs, 0, 0)
  }

  /** Past the last vertex of a row, what is pending is what the next row has pending. */
  lemma PendingNextRow(E: seq<seq<bool>>, vs: seq<int>, v: int, a: int, b: int)
    requires Square(E) && Within(vs, |E|) && 0 <= v < |vs|
    ensures Pending(E, vs, v, |E|, a, b) <==> Pending(E, vs, v + 1, 0, a, b)
  {
    if Pending(E, vs, v, |E|, a, b) {
      var v', w' :| 0 <= v' < |vs| && 0 <= w' < |E| && (v' > v || (v' == v && w' >= |E|)) && Hit(E, vs, v', w', a, b);
      assert v' > v;
    }
    if Pending(E, vs, v + 1, 0, a, b) {
      var v', w' :| 0 <= v' < |vs| && 0 <= w' < |E| && (v' > v + 1 || (v' == v + 1 && w' >= 0)) && Hit(E, vs, v', w', a, b);
      assert v' > v;
    }
  }

  /** At (v, w), what is pending is the cell hit there or what is pending from (v, w + 1). */
  lemma PendingNextColumn(E: seq<seq<bool>>, vs: seq<int>, v: int, w: int, a: int, b: int)
    requires Square(E) && Within(vs, |E|) && 0 <= v < |vs| && 0 <= w < |E|
    ensures Pending(E, vs, v, w, a, b) <==> Hit(E, vs, v, w, a, b) || Pending(E, vs, v, w + 1, a, b)
  {
    if Pending(E, vs, v, w, a, b) && !Hit(E, vs, v, w, a, b) {
      var v', w' :| 0 <= v' < |vs| && 0 <= w' < |E| && (v' > v || (v' == v && w' >= w)) && Hit(E, vs, v', w', a, b);
      assert v' > v || (v' == v && w' >= w + 1);
    }
    if Pending(E, vs, v, w + 1, a, b) {
      var v', w' :| 0 <= v' < |vs| && 0 <= w' < |E| && (v' > v || (v' == v && w' >= w + 1)) && Hit(E, vs, v', w', a, b);
      assert v' > v || (v' == v && w' >= w);
    }
  }

  lemma {:induction false} SubGraphFromCells(s: Matrices, E: seq<seq<bool>>, vs: seq<int>, v: nat, w: nat)
    requires Shaped(s) && |s.adj| == |vs| && Square(E) && v <= |vs| && w <= |E|
    requires Within(vs, |E|)
    ensures forall a, b :: 0 <= a < |vs| && 0 <= b < |vs| ==>
              (SubGraphFrom(s, E, vs, v, w).adj[a][b] <==> s.adj[a][b] || Pending(E, vs, v, w, a, b))
    decreases |vs| - v, |E| - w
  {
    if v == |vs| {
      forall a, b | 0 <= a < |vs| && 0 <= b < |vs| ensures !Pending(E, vs, v, w, a, b) { }
    } else if w == |E| {
      SubGraphFromCells(s, E, vs, v + 1, 0);
      forall a, b | 0 <= a < |vs| && 0 <= b < |vs|
        ensures Pending(E, vs, v, w, a, b) <==> Pending(E, vs, v + 1, 0, a, b)
      {
        PendingNextRow(E, vs, v, a, b);
      }
    } else {
      var t := if IsEdgeIn(E, vs[v], w) && w in vs then Added(s, v, IndexOf(vs, w)) else s;
      SubGraphFromCells(t, E, vs, v, w + 1);
      forall a, b | 0 <= a < |vs| && 0 <= b < |vs|
        ensures t.adj[a][b] <==> s.adj[a][b] || Hit(E, vs, v, w, a, b)
      {
      }
      forall a, b | 0 <= a < |vs| && 0 <= b < |vs|
        ensures Pending(E, vs, v, w, a, b) <==> Hit(E, vs, v, w, a, b) || Pending(E, vs, v, w + 1, a, b)
      {
        PendingNextColumn(E, vs, v, w, a, b);
      }
    }
  }

  /**
   * makeSubGraph keeps exactly the induced edges: for distinct listed vertices,
   * positions a and b are joined iff the vertices vs[a] and vs[b] are.
   */
  lemma SubGraphInduced(E: seq<seq<bool>>, vs: seq<int>)
    requires Square(E) && (Within(vs, |E|)) && Distinct(vs)
    ensures forall a, b :: 0 <= a < |vs| && 0 <= b < |vs| ==>
              (SubGraphOf(E, vs).adj[a][b] <==> IsEdgeIn(E, vs[a], vs[b]))
  {
    SubGraphFromCells(Empty(|vs|), E, vs, 0, 0);
    forall a, b | 0 <= a < |vs| && 0 <= b < |vs|
      ensures Pending(E, vs, 0, 0, a, b) <==> IsEdgeIn(E, vs[a], vs[b])
    {
      if IsEdgeIn(E, vs[a], vs[b]) {
        assert IndexOf(vs, vs[b]) == b;
        assert Hit(E, vs, a, vs[b], a, b);
      }
      if Pending(E, vs, 0, 0, a, b) {
        var v', w' :| 0 <= v' < |vs| && 0 <= w' < |E| && Hit(E, vs, v', w', a, b);
        var k := IndexOf(vs, w');
        assert vs[k] == w';
      }
    }
  }

  /** A sublist of a list whose concatenation has no repeats has none itself. */
  lemma DistinctPart(ss: seq<seq<int>>, k: int)
    requires Distinct(Flatten(ss)) && 0 <= k < |ss|
    ensures Distinct(ss[k])
  {
    if k == 0 {
      assert Flatten(ss) == ss[0] + Flatten(ss[1..]);
      assert forall i :: 0 <= i < |ss[0]| ==> Flatten(ss)[i] == ss[0][i];
    } else {
      assert Flatten(ss) == ss[0] + Flatten(ss[1..]);
      assert forall i :: 0 <= i < |Flatten(ss[1..])| ==> Flatten(ss)[|ss[0]| + i] == Flatten(ss[1..])[i];
      DistinctPart(ss[1..], k - 1);
    }
  }

  /**
   * The subgraphs splice builds from the connected components keep exactly the
   * edges among each component's vertices, relabelled by position.
   */
  lemma ComponentSubGraphsInduced(M: seq<seq<bool>>)
    requires Square(M)
    ensures forall k, a, b :: (0 <= k < NumComponents(M)
              && 0 <= a < |Components.ComponentsOf(M)[k]| && 0 <= b < |Components.ComponentsOf(M)[k]|) ==>
              (SubGraphOf(M, Components.ComponentsOf(M)[k]).adj[a][b]
               <==> IsEdgeIn(M, Components.ComponentsOf(M)[k][a], Components.ComponentsOf(M)[k][b]))
  {
    var comps := Components.ComponentsOf(M);
    Components.ComponentsPartition(M);
    forall k | 0 <= k < |comps|
      ensures forall a, b :: 0 <= a < |comps[k]| && 0 <= b < |comps[k]| ==>
                (SubGraphOf(M, comps[k]).adj[a][b] <==> IsEdgeIn(M, comps[k][a], comps[k][b]))
    {
      DistinctPart(comps, k);
      SubGraphInduced(M, comps[k]);
    }
  }

  /**
   * isMinimallyConnected as written, from cell (i, j) on: every edge found is
   * removed and never put back, and the answer turns false when a removal leaves
   * a single component.
   */
  function MinConnectedLoop(s: Matrices, i: nat, j: nat, flag: bool): (r: (Matrices, bool))
    requires Shaped(s) && i <= |s.adj| && j <= |s.adj|
    ensures Shaped(r.0) && |r.0.adj| == |s.adj| && (r.1 ==> flag)
    decreases |s.adj| - i, |s.adj| - j
  {
    if i == |s.adj| then (s, flag)
    else if j == |s.adj| then MinConnectedLoop(s, i + 1, 0, flag)
    else
      var t := MinConnectedStep(s, i, j, flag);
      MinConnectedLoop(t.0, i, j + 1, t.1)
  }

  /** One cell of isMinimallyConnected as written: an edge found is removed, and the answer turns false if one component is left. */
  function MinConnectedStep(s: Matrices, i: int, j: int, flag: bool): (r: (Matrices, bool))
    requires Shaped(s) && 0 <= i < |s.adj| && 0 <= j < |s.adj|
    ensures Shaped(r.0) && |r.0.adj| == |s.adj| && (r.1 ==> flag)
  {
    if IsEdgeIn(s.adj, i, j) then
      var removed := Removed(s, i, j);
      (removed, flag && NumComponents(removed.adj) != 1)
    else (s, flag)
  }

  /** isMinimallyConnected as written: the answer and the graph it leaves behind. */
  function MinConnectedAsWritten(s: Matrices): (r: (Matrices, bool))
    requires Shaped(s)
    ensures Shaped(r.0) && |r.0.adj| == |s.adj|
    ensures NumComponents(s.adj) > 1 ==> !r.1
  {
    if NumComponents(s.adj) > 1 then (s, false) else MinConnectedLoop(s, 0, 0, true)
  }

  /**
   * The intended isMinimallyConnected: at most one component, and removing any
   * single edge leaves more than one (every edge is a bridge).
   */
  ghost predicate MinimallyConnected(M: seq<seq<bool>>)
    requires Square(M)
  {
    NumComponents(M) <= 1
    && forall i, j :: 0 <= i < |M| && 0 <= j < |M| && IsEdgeIn(M, i, j) ==> NumComponents(SetPair(M, i, j, false)) != 1
  }

  lemma MinimallyConnectedByRows(M: seq<seq<bool>>)
    requires Square(M)
    ensures MinimallyConnected(M) <==> NumComponents(M) <= 1 && forall a :: 0 <= a < |M| ==> RowBridges(M, a, |M|)
  {
    if forall a :: 0 <= a < |M| ==> RowBridges(M, a, |M|) {
      forall i, j | 0 <= i < |M| && 0 <= j < |M| && IsEdgeIn(M, i, j)
        ensures NumComponents(SetPair(M, i, j, false)) != 1
      {
        assert RowBridges(M, i, |M|);
      }
    }
  }

  /** Every edge (i, b) with b < j is a bridge: removing it leaves other than one component. */
  ghost predicate RowBridges(M: seq<seq<bool>>, i: int, j: int)
    requires Square(M) && 0 <= i < |M| && j <= |M|
  {
    forall b :: 0 <= b < j && IsEdgeIn(M, i, b) ==> NumComponents(SetPair(M, i, b, false)) != 1
  }

  /** Once vertex 0 has no edge, every later removal leaves it alone, so the answer stays as it is. */
  lemma {:induction false} IsolatedZeroKeepsFlag(s: Matrices, i: nat, j: nat, flag: bool)
    requires Shaped(s) && i <= |s.adj| && j <= |s.adj| && |s.adj| >= 2
    requires forall w :: 0 <= w < |s.adj| ==> !s.adj[0][w]
    ensures MinConnectedLoop(s, i, j, flag).1 == flag
    decreases |s.adj| - i, |s.adj| - j
  {
    if i == |s.adj| {
    } else if j == |s.adj| {
      IsolatedZeroKeepsFlag(s, i + 1, 0, flag);
    } else {
      var t := MinConnectedStep(s, i, j, flag);
      if IsEdgeIn(s.adj, i, j) {
        Components.IsolatedZeroSplits(t.0.adj);
      }
      IsolatedZeroKeepsFlag(t.0, i, j + 1, t.1);
    }
  }

  /** The graph 0-1, 1-2, 2-3, 3-1: a triangle with a pendant edge. */
  function Kite(): seq<seq<bool>>
  {
    [[false, true, false, false],
     [true, false, true, true],
     [false, true, false, true],
     [false, true, true, false]]
  }

  /** The kite is connected. */
  lemma KiteConnected(E: seq<seq<bool>>)
    requires E == Kite()
    ensures Square(E) && NumComponents(E) == 1
  {
    forall x | 0 <= x < 4 ensures Components.Reaches(E, 0, x) {
      var p := if x == 0 then [0] else if x == 1 then [0, 1] else [0, 1, x];
      assert Components.IsWalk(E, p);
    }
    Components.SingleComponentIffConnected(E);
  }

  /** Without the edge 1-2 the kite is still connected, so 1-2 is not a bridge. */
  lemma KiteWithoutOneTwoConnected(E: seq<seq<bool>>, F: seq<seq<bool>>)
    requires E == Kite() && Square(E) && F == SetPair(E, 1, 2, false)
    ensures IsEdgeIn(E, 1, 2) && NumComponents(F) == 1
  {
    forall x | 0 <= x < 4 ensures Components.Reaches(F, 0, x) {
      var p := if x == 0 then [0] else if x == 1 then [0, 1] else if x == 3 then [0, 1, 3] else [0, 1, 3, 2];
      assert Components.IsWalk(F, p);
    }
    Components.SingleComponentIffConnected(F);
  }

  /** The first edge isMinimallyConnected removes from the kite is 0-1, which leaves vertex 0 alone. */
  lemma KiteFirstRemoval(s: Matrices)
    requires s.adj == Kite() && Shaped(s)
    ensures MinConnectedLoop(s, 0, 0, true) == MinConnectedLoop(Removed(s, 0, 1), 0, 2, true)
    ensures forall w :: 0 <= w < 4 ==> !Removed(s, 0, 1).adj[0][w]
  {
    assert !IsEdgeIn(s.adj, 0, 0) && IsEdgeIn(s.adj, 0, 1);
    var r := Removed(s, 0, 1);
    forall w | 0 <= w < 4 ensures !r.adj[0][w] {
      assert w == 0 || w == 1 || w == 2 || w == 3;
    }
    Components.IsolatedZeroSplits(r.adj);
  }

  /**
   * isMinimallyConnected as written answers true for the kite, which is connected
   * but has the cycle 1-2-3: removing edge 1-2 leaves a single component.
   */
  lemma MinConnectedAsWrittenAcceptsCycle(s: Matrices)
    requires s.adj == Kite() && Shaped(s)
    ensures MinConnectedAsWritten(s).1
    ensures !MinimallyConnected(s.adj)
  {
    KiteConnected(s.adj);
    KiteFirstRemoval(s);
    IsolatedZeroKeepsFlag(Removed(s, 0, 1), 0, 2, true);
    KiteWithoutOneTwoConnected(s.adj, SetPair(s.adj, 1, 2, false));
  }

  /** g is the graph makeSubGraph builds from the listed vertices of M, with the given name. */
  ghost predicate SubGraphFor(g: Graph, M: seq<seq<bool>>, vs: seq<int>, name: string)
    reads g
    requires Square(M) && Within(vs, |M|)
  {
    g.Valid() && g.numVertices == |vs| && g.name == name && g.State() == SubGraphOf(M, vs)
  }

  class Graph {
    var name: string
    var numVertices: int
    var numEdges: int
    var adjMatrix: seq<seq<bool>>
    var transmissionMatrix: seq<seq<int>>
    var time: int

    function State(): Matrices
      reads this
    {
      Matrices(adjMatrix, transmissionMatrix, numEdges)
    }

    ghost predicate Valid()
      reads this
    {
      WellFormed(State()) && numVertices == |adjMatrix|
    }

    /** Graph(numVertices, name) */
    constructor (numVertices: nat, name: string)
      ensures Valid() && State() == Empty(numVertices)
      ensures this.numVertices == numVertices && this.name == name && time == 0
    {
      this.name := name;
      this.numVertices := numVertices;
      this.numEdges := 0;
      this.adjMatrix := seq(numVertices, _ => seq(numVertices, _ => false));
      this.transmissionMatrix := seq(numVertices, _ => seq(numVertices, _ => 0));
      this.time := 0;
    }

    /** isEdge(i, j) */
    predicate IsEdge(i: int, j: int)
      reads this
      requires Valid() && 0 <= i < numVertices && 0 <= j < numVertices
    {
      IsEdgeIn(adjMatrix, i, j)
    }

    /** addEdge(i, j) */
    method AddEdge(i: int, j: int)
      requires Valid() && 0 <= i < numVertices && 0 <= j < numVertices
      modifies this`adjMatrix, this`transmissionMatrix, this`numEdges
      ensures Valid() && State() == Added(old(State()), i, j)
    {
      adjMatrix := SetPair(adjMatrix, i, j, true);
      transmissionMatrix := SetPair(transmissionMatrix, i, j, 1);
      numEdges := numEdges + 1;
    }

    /** removeEdge(i, j) */
    method RemoveEdge(i: int, j: int)
      requires Valid() && 0 <= i < numVertices && 0 <= j < numVertices
      modifies this`adjMatrix, this`transmissionMatrix, this`numEdges
      ensures Valid() && State() == Removed(old(State()), i, j)
    {
      adjMatrix := SetPair(adjMatrix, i, j, false);
      transmissionMatrix := SetPair(transmissionMatrix, i, j, 0);
    }

    /** getConnectedComponents: every vertex in exactly one list, and no edge leaves a list. */
    method GetConnectedComponents() returns (comps: seq<seq<int>>)
      requires Valid()
      ensures comps == Components.ComponentsOf(adjMatrix)
    {
      comps := Components.ConnectedComponents(adjMatrix);
      Components.ComponentsPartition(adjMatrix);
      Components.ComponentsClosed(adjMatrix);
    }

    /** getAdjacencyList: row i lists, in ascending order, every j with adjMatrix[i][j]. */
    method GetAdjacencyList() returns (nbrs: seq<seq<int>>)
      requires Valid() && numVertices > 0
      ensures |nbrs| == numVertices && CutVertices.IsAdjacency(nbrs)
      ensures forall i :: 0 <= i < numVertices ==> Ascending(nbrs[i])
      ensures forall i, x :: 0 <= i < numVertices ==> (x in nbrs[i] <==> 0 <= x < numVertices && adjMatrix[i][x])
    {
      nbrs := [];
      var i := 0;
      while i < numVertices
        invariant 0 <= i <= numVertices && |nbrs| == i
        invariant forall a, k :: 0 <= a < i && 0 <= k < |nbrs[a]| ==> 0 <= nbrs[a][k] < numVertices
        invariant forall a :: 0 <= a < i ==> Ascending(nbrs[a])
        invariant forall a, x :: 0 <= a < i ==> (x in nbrs[a] <==> 0 <= x < numVertices && adjMatrix[a][x])
      {
        var row: seq<int> := [];
        var j := 0;
        while j < numVertices
          invariant 0 <= j <= numVertices
          invariant forall k :: 0 <= k < |row| ==> 0 <= row[k] < j
          invariant Ascending(row)
          invariant forall x :: x in row <==> 0 <= x < j && adjMatrix[i][x]
        {
          if adjMatrix[i][j] { row := row + [j]; }
          j := j + 1;
        }
        nbrs := nbrs + [row];
        i := i + 1;
      }
    }

    /**
     * getCutVertices: Tarjan's search over the rows of the matrix.  A vertex is
     * reported only if it has two different neighbours.
     */
    method GetCutVertices() returns (cuts: seq<int>)
      requires Valid()
      modifies this`time
      ensures Ascending(cuts) && forall x :: x in cuts ==> 0 <= x < numVertices
      ensures forall x :: x in cuts ==> exists a, b :: 0 <= a < b < numVertices && IsEdge(x, a) && IsEdge(x, b)
    {
      if numVertices == 0 {
        cuts := [];
        return;
      }
      var nbrs := GetAdjacencyList();
      forall u, k | 0 <= u < |nbrs| && 0 <= k < |nbrs[u]| ensures u in nbrs[nbrs[u][k]] {
        assert nbrs[u][k] in nbrs[u];
      }
      cuts, time := CutVertices.GetCutVertices(nbrs, time);
      forall x | x in cuts
        ensures exists a, b :: 0 <= a < b < numVertices && IsEdge(x, a) && IsEdge(x, b)
      {
        assert CutVertices.TwoNeighbours(nbrs, x);
        var i, j :| 0 <= i < |nbrs[x]| && 0 <= j < |nbrs[x]| && nbrs[x][i] != nbrs[x][j];
        assert nbrs[x][i] in nbrs[x] && nbrs[x][j] in nbrs[x];
        if nbrs[x][i] < nbrs[x][j] {
          assert IsEdge(x, nbrs[x][i]) && IsEdge(x, nbrs[x][j]);
        } else {
          assert IsEdge(x, nbrs[x][j]) && IsEdge(x, nbrs[x][i]);
        }
      }
    }

    /** makeSubGraph(vertices): a fresh graph named name + " Subgraph" on the listed vertices. */
    method MakeSubGraph(vertices: seq<int>) returns (sub: Graph)
      requires Valid() && Within(vertices, numVertices)
      ensures fresh(sub) && sub.Valid() && sub.State() == SubGraphOf(adjMatrix, vertices)
      ensures sub.numVertices == |vertices| && sub.name == name + " Subgraph" && sub.time == 0
    {
      sub := new Graph(|vertices|, name + " Subgraph");
      var v := 0;
      while v < |vertices|
        invariant 0 <= v <= |vertices| && fresh(sub) && sub.Valid() && sub.numVertices == |vertices|
        invariant sub.name == name + " Subgraph" && sub.time == 0
        invariant SubGraphFrom(sub.State(), adjMatrix, vertices, v, 0) == SubGraphOf(adjMatrix, vertices)
      {
        AddRowEdges(sub, vertices, v);
        v := v + 1;
      }
    }

    /** The inner loop of makeSubGraph, for the listed vertex at position v. */
    method AddRowEdges(sub: Graph, vertices: seq<int>, v: int)
      requires Valid() && Within(vertices, numVertices) && 0 <= v < |vertices|
      requires sub != this && sub.Valid() && sub.numVertices == |vertices|
      modifies sub`adjMatrix, sub`transmissionMatrix, sub`numEdges
      ensures sub.Valid()
      ensures SubGraphFrom(sub.State(), adjMatrix, vertices, v + 1, 0) == SubGraphFrom(old(sub.State()), adjMatrix, vertices, v, 0)
    {
      var w := 0;
      while w < numVertices
        invariant 0 <= w <= numVertices && sub.Valid()
        invariant SubGraphFrom(sub.State(), adjMatrix, vertices, v, w) == SubGraphFrom(old(sub.State()), adjMatrix, vertices, v, 0)
      {
        if IsEdge(vertices[v], w) && w in vertices {
          sub.AddEdge(v, IndexOf(vertices, w));
        }
        w := w + 1;
      }
    }

    /**
     * removeBridges(i) as intended: before each edge at i is removed, the
     * components are counted afresh.
     */
    method RemoveBridges(i: int)
      requires Valid() && 0 <= i < numVertices
      modifies this`adjMatrix, this`transmissionMatrix, this`numEdges
      ensures Valid() && State() == BridgesRemoved(old(State()), i)
    {
      ghost var goal := BridgesFromRecounted(State(), i, 0);
      var j := 0;
      while j < numVertices
        invariant 0 <= j <= numVertices && Valid()
        invariant BridgesFromRecounted(State(), i, j) == goal
      {
        var comps := GetConnectedComponents();
        BridgeAt(i, j, |comps|);
        j := j + 1;
      }
    }

    /** removeBridges(i) as written: the count it compares against is taken once, before the loop. */
    method RemoveBridgesAsWritten(i: int)
      requires Valid() && 0 <= i < numVertices
      modifies this`adjMatrix, this`transmissionMatrix, this`numEdges
      ensures Valid() && State() == BridgesRemovedAsWritten(old(State()), i)
    {
      var comps0 := GetConnectedComponents();
      var c0 := |comps0|;
      ghost var goal := BridgesFrom(State(), i, 0, c0);
      var j := 0;
      while j < numVertices
        invariant 0 <= j <= numVertices && Valid()
        invariant BridgesFrom(State(), i, j, c0) == goal
      {
        BridgeAt(i, j, c0);
        j := j + 1;
      }
    }

    /** The body of removeBridges' loop at column j. */
    method BridgeAt(i: int, j: int, c0: int)
      requires Valid() && 0 <= i < numVertices && 0 <= j < numVertices
      modifies this`adjMatrix, this`transmissionMatrix, this`numEdges
      ensures Valid() && State() == BridgeStep(old(State()), i, j, c0)
    {
      if IsEdge(i, j) {
        RemoveEdge(i, j);
        var comps := GetConnectedComponents();
        if |comps| == c0 {
          AddEdge(i, j);
        } else {
          RestoreForSingletons(comps, i, j);
        }
      }
    }

    /** The inner loop of removeBridges: addEdge(i, j) once for every one-vertex component. */
    method RestoreForSingletons(comps: seq<seq<int>>, i: int, j: int)
      requires Valid() && 0 <= i < numVertices && 0 <= j < numVertices
      modifies this`adjMatrix, this`transmissionMatrix, this`numEdges
      ensures Valid() && State() == AddedTimes(old(State()), i, j, Singletons(comps))
    {
      var k := 0;
      while k < |comps|
        invariant 0 <= k <= |comps| && Valid()
        invariant State() == AddedTimes(old(State()), i, j, Singletons(comps[..k]))
      {
        assert comps[..k + 1][..k] == comps[..k];
        if |comps[k]| == 1 {
          AddEdge(i, j);
        }
        k := k + 1;
      }
      assert comps[..k] == comps;
    }

    /**
     * splice: with no cut vertices, just this graph; otherwise removeBridges as written
     * runs at every cut vertex and each connected component becomes a subgraph.
     */
    method Splice() returns (subGraphs: seq<Graph>, ghost cuts: seq<int>)
      requires Valid()
      modifies this`adjMatrix, this`transmissionMatrix, this`numEdges, this`time
      ensures Valid()
      ensures Ascending(cuts) && Within(cuts, numVertices)
      ensures cuts == [] ==> subGraphs == [this] && State() == old(State())
      ensures cuts != [] ==>
                State() == RemoveBridgesAllAsWritten(old(State()), cuts)
                && |subGraphs| == NumComponents(adjMatrix)
                && forall k :: 0 <= k < |subGraphs| ==>
                     fresh(subGraphs[k])
                     && SubGraphFor(subGraphs[k], adjMatrix, Components.ComponentsOf(adjMatrix)[k], name + " Subgraph")
    {
      var found := GetCutVertices();
      assert Within(found, numVertices) by {
        forall k | 0 <= k < |found| ensures 0 <= found[k] < numVertices {
          assert found[k] in found;
        }
      }
      cuts := found;
      if found == [] {
        subGraphs := [this];
        return;
      }
      RemoveBridgesAt(found);
      var comps := GetConnectedComponents();
      subGraphs := MakeSubGraphs(comps);
    }

    /** The first loop of splice: removeBridges as written at each cut vertex in turn. */
    method RemoveBridgesAt(cuts: seq<int>)
      requires Valid() && Within(cuts, numVertices)
      modifies this`adjMatrix, this`transmissionMatrix, this`numEdges
      ensures Valid() && State() == RemoveBridgesAllAsWritten(old(State()), cuts)
    {
      var n := 0;
      while n < |cuts|
        invariant 0 <= n <= |cuts| && Valid()
        invariant RemoveBridgesAllAsWritten(State(), cuts[n..]) == RemoveBridgesAllAsWritten(old(State()), cuts)
      {
        assert cuts[n..][1..] == cuts[n + 1..];
        RemoveBridgesAsWritten(cuts[n]);
        n := n + 1;
      }
    }

    /**
     * splice as intended: the same steps with removeBridges as intended, which removes
     * only the bridges at each cut vertex.
     */
    method SpliceIntended() returns (subGraphs: seq<Graph>, ghost cuts: seq<int>)
      requires Valid()
      modifies this`adjMatrix, this`transmissionMatrix, this`numEdges, this`time
      ensures Valid()
      ensures Ascending(cuts) && Within(cuts, numVertices)
      ensures cuts == [] ==> subGraphs == [this] && State() == old(State())
      ensures cuts != [] ==>
                State() == RemoveBridgesAll(old(State()), cuts)
                && |subGraphs| == NumComponents(adjMatrix)
                && forall k :: 0 <= k < |subGraphs| ==>
                     fresh(subGraphs[k])
                     && SubGraphFor(subGraphs[k], adjMatrix, Components.ComponentsOf(adjMatrix)[k], name + " Subgraph")
    {
      var found := GetCutVertices();
      assert Within(found, numVertices) by {
        forall k | 0 <= k < |found| ensures 0 <= found[k] < numVertices {
          assert found[k] in found;
        }
      }
      cuts := found;
      if found == [] {
        subGraphs := [this];
        return;
      }
      RemoveBridgesAtIntended(found);
      var comps := GetConnectedComponents();
      subGraphs := MakeSubGraphs(comps);
    }

    /** The first loop of splice with removeBridges as intended. */
    method RemoveBridgesAtIntended(cuts: seq<int>)
      requires Valid() && Within(cuts, numVertices)
      modifies this`adjMatrix, this`transmissionMatrix, this`numEdges
      ensures Valid() && State() == RemoveBridgesAll(old(State()), cuts)
    {
      var n := 0;
      while n < |cuts|
        invariant 0 <= n <= |cuts| && Valid()
        invariant RemoveBridgesAll(State(), cuts[n..]) == RemoveBridgesAll(old(State()), cuts)
      {
        assert cuts[n..][1..] == cuts[n + 1..];
        RemoveBridges(cuts[n]);
        n := n + 1;
      }
    }

    /** The second loop of splice: one subgraph per connected component. */
    method MakeSubGraphs(comps: seq<seq<int>>) returns (subGraphs: seq<Graph>)
      requires Valid() && comps == Components.ComponentsOf(adjMatrix)
      ensures |subGraphs| == |comps|
      ensures forall k :: 0 <= k < |comps| ==>
                fresh(subGraphs[k]) && SubGraphFor(subGraphs[k], adjMatrix, comps[k], name + " Subgraph")
    {
      subGraphs := [];
      var k := 0;
      while k < |comps|
        invariant 0 <= k <= |comps| && |subGraphs| == k
        invariant forall m :: 0 <= m < k ==>
                    fresh(subGraphs[m]) && SubGraphFor(subGraphs[m], adjMatrix, comps[m], name + " Subgraph")
      {
        var sub := MakeSubGraph(comps[k]);
        subGraphs := subGraphs + [sub];
        k := k + 1;
      }
    }

    /**
     * isMinimallyConnected as written: it removes each edge it examines and never
     * puts it back, so the answer is computed on an ever smaller graph.
     */
    method IsMinimallyConnectedAsWritten() returns (minConnected: bool)
      requires Valid()
      modifies this`adjMatrix, this`transmissionMatrix, this`numEdges
      ensures Valid() && (State(), minConnected) == MinConnectedAsWritten(old(State()))
    {
      minConnected := true;
      var comps := GetConnectedComponents();
      if |comps| > 1 {
        minConnected := false;
        return;
      }
      ghost var goal := MinConnectedLoop(State(), 0, 0, true);
      var i := 0;
      while i < numVertices
        invariant 0 <= i <= numVertices && Valid()
        invariant MinConnectedLoop(State(), i, 0, minConnected) == goal
      {
        minConnected := RemoveRowAsWritten(i, minConnected);
        i := i + 1;
      }
    }

    /** The inner loop of isMinimallyConnected as written, over row i. */
    method RemoveRowAsWritten(i: int, flag: bool) returns (minConnected: bool)
      requires Valid() && 0 <= i < numVertices
      modifies this`adjMatrix, this`transmissionMatrix, this`numEdges
      ensures Valid() && MinConnectedLoop(State(), i + 1, 0, minConnected) == MinConnectedLoop(old(State()), i, 0, flag)
    {
      minConnected := flag;
      ghost var goal := MinConnectedLoop(State(), i, 0, flag);
      var j := 0;
      while j < numVertices
        invariant 0 <= j <= numVertices && Valid()
        invariant MinConnectedLoop(State(), i, j, minConnected) == goal
      {
        minConnected := RemoveIfEdgeAsWritten(i, j, minConnected);
        j := j + 1;
      }
    }

    /** The body of isMinimallyConnected's inner loop as written, at cell (i, j). */
    method RemoveIfEdgeAsWritten(i: int, j: int, flag: bool) returns (minConnected: bool)
      requires Valid() && 0 <= i < numVertices && 0 <= j < numVertices
      modifies this`adjMatrix, this`transmissionMatrix, this`numEdges
      ensures Valid() && (State(), minConnected) == MinConnectedStep(old(State()), i, j, flag)
    {
      minConnected := flag;
      if IsEdge(i, j) {
        RemoveEdge(i, j);
        var after := GetConnectedComponents();
        if |after| == 1 {
          minConnected := false;
        }
      }
    }

    /**
     * isMinimallyConnected with each removed edge considered on a copy of the
     * matrix, so the graph is left as it was: true iff there is at most one
     * component and every edge is a bridge.
     */
    method IsMinimallyConnected() returns (minConnected: bool)
      requires Valid()
      ensures minConnected <==> MinimallyConnected(adjMatrix)
    {
      var comps := GetConnectedComponents();
      if |comps| > 1 {
        return false;
      }
      minConnected := true;
      var i := 0;
      while i < numVertices
        invariant 0 <= i <= numVertices
        invariant minConnected <==> forall a :: 0 <= a < i ==> RowBridges(adjMatrix, a, numVertices)
      {
        var row := RowAllBridges(i);
        minConnected := minConnected && row;
        i := i + 1;
      }
      MinimallyConnectedByRows(adjMatrix);
    }

    /** The inner loop of the intended isMinimallyConnected, over row i. */
    method RowAllBridges(i: int) returns (allBridges: bool)
      requires Valid() && 0 <= i < numVertices
      ensures allBridges <==> RowBridges(adjMatrix, i, numVertices)
    {
      allBridges := true;
      var j := 0;
      while j < numVertices
        invariant 0 <= j <= numVertices
        invariant allBridges <==> RowBridges(adjMatrix, i, j)
      {
        if IsEdge(i, j) {
          var after := Components.ConnectedComponents(SetPair(adjMatrix, i, j, false));
          if |after| == 1 {
            allBridges := false;
          }
        }
        j := j + 1;
      }
    }
  }
}
