/**
 * Tarjan's low-link depth-first search for cut vertices, as written three times in
 * the repository (findCutVertices/getCutVertices in src/io/github/ethankelly/graph/Graph.java,
 * src/io/github/ethankelly/Graph.java and src/main/io/github/ethankelly/Graph.java).
 * The three copies differ only in where the neighbour list of u comes from, so the
 * search takes the neighbour lists as a parameter; the graph's `time` counter is
 * passed in and handed back.
 */
module CutVertices {
  import opened Wrappers

  const NIL: int := -1

  /** nbrs[u] lists the neighbours of u, each a vertex of the graph. */
  predicate IsAdjacency(nbrs: seq<seq<int>>)
  {
    forall u, k :: 0 <= u < |nbrs| && 0 <= k < |nbrs[u]| ==> 0 <= nbrs[u][k] < |nbrs|
  }

  /** v lists u whenever u lists v. */
  predicate SymmetricLists(nbrs: seq<seq<int>>)
    requires IsAdjacency(nbrs)
  {
    forall u, k :: 0 <= u < |nbrs| && 0 <= k < |nbrs[u]| ==> u in nbrs[nbrs[u][k]]
  }

  /** u has at least two different neighbours. */
  predicate TwoNeighbours(nbrs: seq<seq<int>>, u: int)
    requires 0 <= u < |nbrs|
  {
    exists i, j :: 0 <= i < |nbrs[u]| && 0 <= j < |nbrs[u]| && nbrs[u][i] != nbrs[u][j]
  }

  ghost function Marked(visited: array<bool>): set<int>
    reads visited
  {
    set i | 0 <= i < visited.Length && visited[i]
  }

  function Unvisited(n: nat, vis: set<int>): set<int>
  {
    set i | 0 <= i < n && i !in vis
  }

  /** Every vertex marked as a cut vertex has two different neighbours. */
  ghost predicate CutsHaveTwoNeighbours(nbrs: seq<seq<int>>, cut: array<bool>)
    requires cut.Length == |nbrs|
    reads cut
  {
    forall x :: 0 <= x < |nbrs| && cut[x] ==> TwoNeighbours(nbrs, x)
  }

  /** The parent of u, if any, was visited first and lists u as a neighbour. */
  ghost predicate ParentLinked(nbrs: seq<seq<int>>, u: int, visited: array<bool>, parent: array<int>)
    requires IsAdjacency(nbrs) && 0 <= u < |nbrs| == visited.Length == parent.Length
    reads visited, parent
  {
    parent[u] == NIL || (0 <= parent[u] < |nbrs| && visited[parent[u]] && u in nbrs[parent[u]])
  }

  /** findCutVertices(u, visited, disc, low, parent, cutVertices); returns the new time. */
  method FindCutVertices(nbrs: seq<seq<int>>, u: int, visited: array<bool>, disc: array<int>,
                         low: array<int>, parent: array<int>, cut: array<bool>, time: int)
    returns (t: int)
    requires IsAdjacency(nbrs) && 0 <= u < |nbrs|
    requires visited.Length == disc.Length == low.Length == parent.Length == cut.Length == |nbrs|
    requires visited != cut && disc != low && disc != parent && low != parent
    requires !visited[u] && ParentLinked(nbrs, u, visited, parent)
    requires SymmetricLists(nbrs) ==> CutsHaveTwoNeighbours(nbrs, cut)
    modifies visited, disc, low, parent, cut
    ensures old(Marked(visited)) + {u} <= Marked(visited)
    ensures forall x :: 0 <= x < |nbrs| && old(visited[x]) ==> visited[x]
    ensures forall x :: 0 <= x < |nbrs| && old(visited[x]) ==> parent[x] == old(parent[x])
    ensures forall x :: 0 <= x < |nbrs| && !visited[x] ==> parent[x] == old(parent[x])
    ensures t > time
    ensures SymmetricLists(nbrs) ==> CutsHaveTwoNeighbours(nbrs, cut)
    decreases Unvisited(|nbrs|, Marked(visited))
  {
    ghost var vis0 := Marked(visited);
    var children := 0;
    ghost var firstChild := -1;
    visited[u] := true;
    assert Marked(visited) == vis0 + {u};
    assert u in Unvisited(|nbrs|, vis0) && u !in Unvisited(|nbrs|, vis0 + {u});
    t := time + 1;
    disc[u] := t;
    low[u] := t;
    var p := parent[u];
    var k := 0;
    while k < |nbrs[u]|
      invariant 0 <= k <= |nbrs[u]|
      invariant vis0 + {u} <= Marked(visited)
      invariant visited[u]
      invariant forall x :: 0 <= x < |nbrs| && old(visited[x]) ==> visited[x]
      invariant forall x :: 0 <= x < |nbrs| && old(visited[x]) ==> parent[x] == old(parent[x])
      invariant forall x :: 0 <= x < |nbrs| && !visited[x] ==> parent[x] == old(parent[x])
      invariant parent[u] == p
      invariant p == NIL || (0 <= p < |nbrs| && visited[p] && u in nbrs[p])
      invariant t > time
      invariant children <= k
      invariant children > 0 ==> 0 <= firstChild < k && visited[nbrs[u][firstChild]]
      invariant SymmetricLists(nbrs) ==> CutsHaveTwoNeighbours(nbrs, cut)
      decreases |nbrs[u]| - k
    {
      var v := nbrs[u][k];
      if !visited[v] {
        if children == 0 { firstChild := k; }
        children := children + 1;
        parent[v] := u;
        ghost var before := Marked(visited);
        assert Unvisited(|nbrs|, before) <= Unvisited(|nbrs|, vis0 + {u});
        t := FindCutVertices(nbrs, v, visited, disc, low, parent, cut, t);
        MarkIfCut(nbrs, u, k, p, children, firstChild, disc, low, cut);
      } else if v != p {
        low[u] := if low[u] < disc[v] then low[u] else disc[v];
      }
      k := k + 1;
    }
  }

  /**
   * The updates after the search from the child v = nbrs[u][k] returns: low[u] takes
   * low[v] if it is lower; u is a cut vertex when it is the root with more than one
   * child, or when v cannot reach above u.
   */
  method MarkIfCut(nbrs: seq<seq<int>>, u: int, k: int, p: int, children: int, ghost firstChild: int,
                   disc: array<int>, low: array<int>, cut: array<bool>)
    requires IsAdjacency(nbrs) && 0 <= u < |nbrs| && 0 <= k < |nbrs[u]|
    requires disc.Length == low.Length == cut.Length == |nbrs| && disc != low
    requires children > 1 ==> 0 <= firstChild < |nbrs[u]| && nbrs[u][firstChild] != nbrs[u][k]
    requires p != NIL ==> 0 <= p < |nbrs| && u in nbrs[p] && p != nbrs[u][k]
    requires SymmetricLists(nbrs) ==> CutsHaveTwoNeighbours(nbrs, cut)
    modifies low, cut
    ensures var v := nbrs[u][k];
            low[u] == (if old(low[u]) < old(low[v]) then old(low[u]) else old(low[v])) &&
            cut[u] == (old(cut[u]) || (p == NIL && children > 1) || (p != NIL && old(low[v]) >= disc[u]))
    ensures forall x :: 0 <= x < |nbrs| && x != u ==> low[x] == old(low[x]) && cut[x] == old(cut[x])
    ensures SymmetricLists(nbrs) ==> CutsHaveTwoNeighbours(nbrs, cut)
  {
    var v := nbrs[u][k];
    low[u] := if low[u] < low[v] then low[u] else low[v];
    if p == NIL && children > 1 {
      cut[u] := true;
    }
    if p != NIL && low[v] >= disc[u] {
      if SymmetricLists(nbrs) {
        var i :| 0 <= i < |nbrs[p]| && nbrs[p][i] == u;
        assert p in nbrs[nbrs[p][i]];
        var j :| 0 <= j < |nbrs[u]| && nbrs[u][j] == p;
        assert nbrs[u][j] != nbrs[u][k];
      }
      cut[u] := true;
    }
  }

  /** getCutVertices: one search per unvisited vertex, then the marked vertices in ascending order. */
  method GetCutVertices(nbrs: seq<seq<int>>, time: int) returns (cuts: seq<int>, t: int)
    requires IsAdjacency(nbrs)
    ensures Ascending(cuts)
    ensures forall x :: x in cuts ==> 0 <= x < |nbrs|
    ensures SymmetricLists(nbrs) ==> forall x :: x in cuts ==> TwoNeighbours(nbrs, x)
    ensures t >= time
  {
    var n := |nbrs|;
    var visited := new bool[n](_ => false);
    var disc := new int[n](_ => 0);
    var low := new int[n](_ => 0);
    var parent := new int[n](_ => NIL);
    var cut := new bool[n](_ => false);
    t := time;
    var i := 0;
    while i < n
      invariant 0 <= i <= n
      invariant t >= time
      invariant forall x :: 0 <= x < n && !visited[x] ==> parent[x] == NIL
      invariant SymmetricLists(nbrs) ==> CutsHaveTwoNeighbours(nbrs, cut)
    {
      if !visited[i] {
        t := FindCutVertices(nbrs, i, visited, disc, low, parent, cut, t);
      }
      i := i + 1;
    }
    cuts := [];
    var j := 0;
    while j < n
      invariant 0 <= j <= n
      invariant Ascending(cuts)
      invariant forall m :: 0 <= m < |cuts| ==> 0 <= cuts[m] < j && cut[cuts[m]]
      invariant forall x :: 0 <= x < j && cut[x] ==> x in cuts
    {
      if cut[j] {
        cuts := cuts + [j];
      }
      j := j + 1;
    }
  }
}
