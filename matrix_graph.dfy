/**
 * The adjacency-matrix graph of src/io/github/ethankelly/Graph.java: a boolean
 * adjacency matrix and an integer transmission matrix, both n x n, updated cell
 * by cell.
 */
module MatrixGraph {
  import opened Wrappers
  import CutVertices

  class Graph {
    var name: string
    var numVertices: int
    var numEdges: int
    var adjMatrix: array2<bool>
    var transmissionMatrix: array2<int>
    var time: int

    ghost predicate Valid()
      reads this, adjMatrix
    {
      adjMatrix.Length0 == numVertices && adjMatrix.Length1 == numVertices
      && transmissionMatrix.Length0 == numVertices && transmissionMatrix.Length1 == numVertices
      && forall i, j :: 0 <= i < numVertices && 0 <= j < numVertices ==> adjMatrix[i, j] == adjMatrix[j, i]
    }

    /** Graph(numVertices, name): an all-false adjacency matrix and an all-zero transmission matrix. */
    constructor (numVertices: nat, name: string)
      ensures Valid() && fresh(adjMatrix) && fresh(transmissionMatrix)
      ensures this.numVertices == numVertices && this.name == name && numEdges == 0 && time == 0
      ensures forall i, j :: 0 <= i < numVertices && 0 <= j < numVertices ==>
                !adjMatrix[i, j] && transmissionMatrix[i, j] == 0
    {
      this.numVertices := numVertices;
      this.name := name;
      this.numEdges := 0;
      this.time := 0;
      this.adjMatrix := new bool[numVertices, numVertices]((_, _) => false);
      this.transmissionMatrix := new int[numVertices, numVertices]((_, _) => 0);
    }

    /** isEdge(i, j): either cell is set. */
    predicate IsEdge(i: int, j: int)
      reads this, adjMatrix
      requires Valid() && 0 <= i < numVertices && 0 <= j < numVertices
    {
      adjMatrix[i, j] || adjMatrix[j, i]
    }

    /** addEdge(i, j): both cells true, both transmission cells 1, one more edge. */
    method AddEdge(i: int, j: int)
      requires Valid() && 0 <= i < numVertices && 0 <= j < numVertices
      modifies adjMatrix, transmissionMatrix, this`numEdges
      ensures Valid() && numEdges == old(numEdges) + 1
      ensures adjMatrix[i, j] && adjMatrix[j, i]
      ensures transmissionMatrix[i, j] == 1 && transmissionMatrix[j, i] == 1
      ensures forall a, b :: 0 <= a < numVertices && 0 <= b < numVertices && !(a == i && b == j) && !(a == j && b == i) ==>
                adjMatrix[a, b] == old(adjMatrix[a, b]) && transmissionMatrix[a, b] == old(transmissionMatrix[a, b])
    {
      adjMatrix[i, j] := true;
      adjMatrix[j, i] := true;
      transmissionMatrix[i, j] := 1;
      transmissionMatrix[j, i] := 1;
      numEdges := numEdges + 1;
    }

    /** removeEdge(i, j): both cells false, both transmission cells 0; numEdges is not changed. */
    method RemoveEdge(i: int, j: int)
      requires Valid() && 0 <= i < numVertices && 0 <= j < numVertices
      modifies adjMatrix, transmissionMatrix
      ensures Valid() && !IsEdge(i, j) && !IsEdge(j, i)
      ensures transmissionMatrix[i, j] == 0 && transmissionMatrix[j, i] == 0
      ensures forall a, b :: 0 <= a < numVertices && 0 <= b < numVertices && !(a == i && b == j) && !(a == j && b == i) ==>
                adjMatrix[a, b] == old(adjMatrix[a, b]) && transmissionMatrix[a, b] == old(transmissionMatrix[a, b])
    {
      adjMatrix[i, j] := false;
      adjMatrix[j, i] := false;
      transmissionMatrix[i, j] := 0;
      transmissionMatrix[j, i] := 0;
    }

    /** getAdjacencyList: row i lists, in ascending order, every j with adjMatrix[i][j]. */
    method GetAdjacencyList() returns (nbrs: seq<seq<int>>)
      requires Valid()
      ensures |nbrs| == numVertices && CutVertices.IsAdjacency(nbrs)
      ensures forall i :: 0 <= i < numVertices ==> Ascending(nbrs[i])
      ensures forall i, x :: 0 <= i < numVertices ==> (x in nbrs[i] <==> 0 <= x < numVertices && adjMatrix[i, x])
    {
      nbrs := [];
      var i := 0;
      while i < numVertices
        invariant 0 <= i <= numVertices && |nbrs| == i
        invariant forall a, k :: 0 <= a < i && 0 <= k < |nbrs[a]| ==> 0 <= nbrs[a][k] < numVertices
        invariant forall a :: 0 <= a < i ==> Ascending(nbrs[a])
        invariant forall a, x :: 0 <= a < i ==> (x in nbrs[a] <==> 0 <= x < numVertices && adjMatrix[a, x])
      {
        var row: seq<int> := [];
        var j := 0;
        while j < numVertices
          invariant 0 <= j <= numVertices
          invariant forall k :: 0 <= k < |row| ==> 0 <= row[k] < j
          invariant Ascending(row)
          invariant forall x :: x in row <==> 0 <= x < j && adjMatrix[i, x]
        {
          if adjMatrix[i, j] { row := row + [j]; }
          j := j + 1;
        }
        nbrs := nbrs + [row];
        i := i + 1;
      }
    }

    /**
     * getCutVertices: Tarjan's search over the rows of the matrix.  A vertex is
     * reported only if it has two different neighbours.
     */
    method GetCutVertices() returns (cuts: seq<int>)
      requires Valid()
      modifies this`time
      ensures Ascending(cuts) && forall x :: x in cuts ==> 0 <= x < numVertices
      ensures forall x :: x in cuts ==> exists a, b :: 0 <= a < b < numVertices && IsEdge(x, a) && IsEdge(x, b)
    {
      var nbrs := GetAdjacencyList();
      assert CutVertices.SymmetricLists(nbrs);
      cuts, time := CutVertices.GetCutVertices(nbrs, time);
      forall x | x in cuts
        ensures exists a, b :: 0 <= a < b < numVertices && IsEdge(x, a) && IsEdge(x, b)
      {
        assert CutVertices.TwoNeighbours(nbrs, x);
        var i, j :| 0 <= i < |nbrs[x]| && 0 <= j < |nbrs[x]| && nbrs[x][i] != nbrs[x][j];
        assert nbrs[x][i] in nbrs[x] && nbrs[x][j] in nbrs[x];
        if nbrs[x][i] < nbrs[x][j] {
          assert IsEdge(x, nbrs[x][i]) && IsEdge(x, nbrs[x][j]);
        } else {
          assert IsEdge(x, nbrs[x][j]) && IsEdge(x, nbrs[x][i]);
        }
      }
    }
  }
}
