/**
 * The adjacency-list graph of src/io/github/ethankelly/graph/Graph.java.
 * Vertex objects compare by location only (see module Vertices), so each
 * LinkedList<Vertex> is modelled as the list of neighbour locations.
 */
module ListGraph {
  import opened Wrappers
  import Components
  import CutVertices

  /** hasEdge(v, w): either endpoint lists the other. */
  predicate Adjacent(adj: seq<seq<int>>, v: int, w: int)
    requires 0 <= v < |adj| && 0 <= w < |adj|
  {
    w in adj[v] || v in adj[w]
  }

  /** LinkedList.remove(Object): drop the first occurrence of x, if there is one. */
  function RemoveFirst(s: seq<int>, x: int): (r: seq<int>)
    ensures x !in s ==> r == s
    ensures x in s ==> |r| == |s| - 1
    ensures forall y :: y in r ==> y in s
    ensures forall y :: y in s && y != x ==> y in r
    ensures x in s ==> r == s[..IndexOf(s, x)] + s[IndexOf(s, x) + 1..]
  {
    if x in s then
      var i := IndexOf(s, x);
      assert s == s[..i] + [x] + s[i + 1..];
      s[..i] + s[i + 1..]
    else
      s
  }

  /** addEdge(v, w): w goes to the front of v's list and v to the front of w's. */
  function WithEdge(adj: seq<seq<int>>, v: int, w: int): seq<seq<int>>
    requires 0 <= v < |adj| && 0 <= w < |adj| && v != w
  {
    adj[v := [w] + adj[v]][w := [v] + adj[w]]
  }

  /** The two list updates of removeEdge(v, w), one after the other. */
  function WithoutEdge(adj: seq<seq<int>>, v: int, w: int): seq<seq<int>>
    requires 0 <= v < |adj| && 0 <= w < |adj|
  {
    var a := adj[v := RemoveFirst(adj[v], w)];
    a[w := RemoveFirst(a[w], v)]
  }

  /** Removing an edge keeps every listed neighbour a vertex of the graph. */
  lemma WithoutEdgeInRange(adj: seq<seq<int>>, v: int, w: int)
    requires CutVertices.IsAdjacency(adj) && 0 <= v < |adj| && 0 <= w < |adj|
    ensures CutVertices.IsAdjacency(WithoutEdge(adj, v, w))
  {
    var a := adj[v := RemoveFirst(adj[v], w)];
    assert forall k :: 0 <= k < |a[v]| ==> a[v][k] in adj[v];
    assert CutVertices.IsAdjacency(a);
    assert forall k :: 0 <= k < |RemoveFirst(a[w], v)| ==> RemoveFirst(a[w], v)[k] in a[w];
  }

  /** After addEdge(v, w) the pair is adjacent and no other pair changes. */
  lemma AdjacentWithEdge(adj: seq<seq<int>>, v: int, w: int)
    requires 0 <= v < |adj| && 0 <= w < |adj| && v != w
    ensures forall a, b :: 0 <= a < |adj| && 0 <= b < |adj| ==>
              (Adjacent(WithEdge(adj, v, w), a, b) <==> Adjacent(adj, a, b) || (a == v && b == w) || (a == w && b == v))
  {
  }

  /** removeEdge undoes addEdge exactly: addFirst puts w in front, remove takes the first w. */
  lemma RemoveUndoesAdd(adj: seq<seq<int>>, v: int, w: int)
    requires 0 <= v < |adj| && 0 <= w < |adj| && v != w
    ensures WithoutEdge(WithEdge(adj, v, w), v, w) == adj
  {
    assert RemoveFirst([w] + adj[v], w) == adj[v];
    assert RemoveFirst([v] + adj[w], v) == adj[w];
  }

  lemma {:induction false} RemoveFirstDistinct(s: seq<int>, x: int)
    requires Distinct(s)
    ensures x !in RemoveFirst(s, x)
    ensures Distinct(RemoveFirst(s, x))
  {
    if s != [] && s[0] != x {
      RemoveFirstDistinct(s[1..], x);
      assert s[0] !in s[1..];
    }
  }

  /** Lists without repeated entries. */
  predicate NoRepeats(adj: seq<seq<int>>)
  {
    forall v :: 0 <= v < |adj| ==> Distinct(adj[v])
  }

  /**
   * When neither list repeats an entry, removeEdge(v, w) leaves v and w non-adjacent
   * and no other pair changes.
   */
  lemma RemoveEdgeUnlinks(adj: seq<seq<int>>, v: int, w: int)
    requires 0 <= v < |adj| && 0 <= w < |adj| && v != w && NoRepeats(adj)
    ensures !Adjacent(WithoutEdge(adj, v, w), v, w)
    ensures forall a, b :: 0 <= a < |adj| && 0 <= b < |adj| && !((a == v && b == w) || (a == w && b == v)) ==>
              (Adjacent(WithoutEdge(adj, v, w), a, b) <==> Adjacent(adj, a, b))
    ensures NoRepeats(WithoutEdge(adj, v, w))
  {
    RemoveFirstDistinct(adj[v], w);
    RemoveFirstDistinct(adj[w], v);
  }

  /** The hasEdge relation as a matrix, which DFSUtil consults. */
  function EdgeMatrix(adj: seq<seq<int>>): (E: seq<seq<bool>>)
    ensures Components.IsMatrix(E) && |E| == |adj|
    ensures Components.Symmetric(E)
    ensures forall v, w :: 0 <= v < |adj| && 0 <= w < |adj| ==> (E[v][w] <==> Adjacent(adj, v, w))
  {
    seq(|adj|, v requires 0 <= v < |adj| => seq(|adj|, w requires 0 <= w < |adj| => Adjacent(adj, v, w)))
  }

  /**
   * The new list of clone() as written after its first k iterations: the copy of list
   * k - 1 is inserted at indexOf(list), the position of the FIRST equal list.
   */
  function ClonedPrefixAsWritten(lists: seq<seq<int>>, k: nat): (r: seq<seq<int>>)
    requires k <= |lists|
    ensures |r| == k && forall l :: l in r ==> l in lists
  {
    if k == 0 then []
    else
      var prefix := ClonedPrefixAsWritten(lists, k - 1);
      var index := IndexOf(lists, lists[k - 1]);
      IndexOfFirst(lists, lists[k - 1], k - 1);
      prefix[..index] + [lists[k - 1]] + prefix[index..]
  }

  /** The adjacency lists clone() as written gives the copy. */
  function ClonedListsAsWritten(lists: seq<seq<int>>): (r: seq<seq<int>>)
    ensures |r| == |lists| && forall l :: l in r ==> l in lists
  {
    ClonedPrefixAsWritten(lists, |lists|)
  }

  /** The copy only rearranges whole lists, so its entries stay within the vertices. */
  lemma ClonedAsWrittenInRange(lists: seq<seq<int>>)
    requires CutVertices.IsAdjacency(lists)
    ensures CutVertices.IsAdjacency(ClonedListsAsWritten(lists))
  {
    var r := ClonedListsAsWritten(lists);
    forall u, k | 0 <= u < |r| && 0 <= k < |r[u]|
      ensures 0 <= r[u][k] < |r|
    {
      assert r[u] in lists;
      var v :| 0 <= v < |lists| && lists[v] == r[u];
      assert r[u][k] == lists[v][k];
    }
  }

  /** The path 0-1-2 built by addEdge(0, 1), addEdge(1, 2). */
  lemma CloneAsWrittenLosesEdge()
    ensures var path := [[1], [2, 0], [1]];
            var copy := ClonedListsAsWritten(path);
            Adjacent(path, 1, 2) && !Adjacent(copy, 1, 2) && Adjacent(copy, 0, 2) && !Adjacent(path, 0, 2)
  {
    var path := [[1], [2, 0], [1]];
    assert IndexOf(path, [1]) == 0 && IndexOf(path, [2, 0]) == 1;
    assert ClonedPrefixAsWritten(path, 1) == [[1]];
    assert ClonedPrefixAsWritten(path, 2) == [[1], [2, 0]];
    assert ClonedPrefixAsWritten(path, 3) == [[1], [1], [2, 0]];
  }

  /**
   * When no two lists are equal, indexOf finds each list at its own position, and the
   * copy as written holds exactly the original lists, each in its place.
   */
  lemma {:induction false} ClonedPrefixOnDistinct(lists: seq<seq<int>>, k: nat)
    requires Distinct(lists) && k <= |lists|
    ensures ClonedPrefixAsWritten(lists, k) == lists[..k]
  {
    if k > 0 {
      ClonedPrefixOnDistinct(lists, k - 1);
      IndexOfDistinct(lists, k - 1);
      assert lists[..k] == lists[..k - 1] + [lists[k - 1]];
    }
  }

  lemma CloneAsWrittenOnDistinct(lists: seq<seq<int>>)
    requires Distinct(lists)
    ensures ClonedListsAsWritten(lists) == lists
    ensures forall a, b :: 0 <= a < |lists| && 0 <= b < |lists| ==>
              (Adjacent(ClonedListsAsWritten(lists), a, b) <==> Adjacent(lists, a, b))
  {
    ClonedPrefixOnDistinct(lists, |lists|);
    assert lists[..|lists|] == lists;
  }

  /**
   * appendVertices as written: every ordered pair (i, j) with hasEdge(i, j) is
   * added, so each edge enters both lists twice.
   */
  function AppendedAsWritten(adj: seq<seq<int>>, k: nat): seq<seq<int>>
    requires forall v :: 0 <= v < |adj| ==> v !in adj[v]
  {
    CopyPairs(adj, seq(|adj| + k, _ => []), 0, 0, false)
  }

  /** appendVertices as intended: each edge {i, j} is added once, for i < j. */
  function Appended(adj: seq<seq<int>>, k: nat): seq<seq<int>>
    requires forall v :: 0 <= v < |adj| ==> v !in adj[v]
  {
    CopyPairs(adj, seq(|adj| + k, _ => []), 0, 0, true)
  }

  /** The double loop of appendVertices from pair (i, j) onwards; `once` skips pairs with j <= i. */
  function CopyPairs(adj: seq<seq<int>>, that: seq<seq<int>>, i: nat, j: nat, once: bool): (r: seq<seq<int>>)
    requires forall v :: 0 <= v < |adj| ==> v !in adj[v]
    requires |adj| <= |that| && i <= |adj| && j <= |adj|
    ensures |r| == |that|
    decreases |adj| - i, |adj| - j
  {
    if i == |adj| then that
    else if j == |adj| then CopyPairs(adj, that, i + 1, 0, once)
    else if Adjacent(adj, i, j) && (!once || i < j) then CopyPairs(adj, WithEdge(that, i, j), i, j + 1, once)
    else CopyPairs(adj, that, i, j + 1, once)
  }

  /** After appendVertices(0) on the single edge 0-1, removeEdge(0, 1) leaves 0 and 1 adjacent. */
  lemma AppendAsWrittenBreaksRemoveEdge()
    ensures var g := AppendedAsWritten([[1], [0]], 0);
            |g| == 2 && Adjacent(g, 0, 1) && Adjacent(WithoutEdge(g, 0, 1), 0, 1)
  {
    var adj := [[1], [0]];
    var e: seq<seq<int>> := [[], []];
    assert seq(2, _ => []) == e;
    assert Adjacent(adj, 0, 1) && Adjacent(adj, 1, 0) && !Adjacent(adj, 0, 0) && !Adjacent(adj, 1, 1);
    var t1 := WithEdge(e, 0, 1);
    assert t1[0] == [1] && t1[1] == [0];
    assert t1 == [[1], [0]];
    var t2 := WithEdge(t1, 1, 0);
    assert t2[0] == [1, 1] && t2[1] == [0, 0];
    assert t2 == [[1, 1], [0, 0]];
    calc {
      AppendedAsWritten(adj, 0);
      CopyPairs(adj, e, 0, 0, false);
      CopyPairs(adj, e, 0, 1, false);
      CopyPairs(adj, t1, 0, 2, false);
      CopyPairs(adj, t1, 1, 0, false);
      CopyPairs(adj, t2, 1, 1, false);
      CopyPairs(adj, t2, 1, 2, false);
      CopyPairs(adj, t2, 2, 0, false);
      t2;
    }
    var r := WithoutEdge(t2, 0, 1);
    assert r[0] == [1] && r[1] == [0];
  }

  /**
   * The intended copy keeps exactly the old edges on the old vertices, adds no
   * edge at a new vertex, and keeps every list free of repeats, so a later
   * removeEdge unlinks the pair (RemoveEdgeUnlinks).
   */
  lemma {:induction false} CopyPairsOnce(adj: seq<seq<int>>, that: seq<seq<int>>, i: nat, j: nat)
    requires forall v :: 0 <= v < |adj| ==> v !in adj[v]
    requires |adj| <= |that| && i <= |adj| && j <= |adj|
    requires CutVertices.IsAdjacency(that) && NoRepeats(that)
    requires forall a, b :: 0 <= a < |that| && 0 <= b < |that| ==>
               (Adjacent(that, a, b) <==> a < |adj| && b < |adj| && Adjacent(adj, a, b) && Done(a, b, i, j))
    ensures var r := CopyPairs(adj, that, i, j, true);
            CutVertices.IsAdjacency(r) && NoRepeats(r) &&
            forall a, b :: 0 <= a < |that| && 0 <= b < |that| ==>
              (Adjacent(r, a, b) <==> a < |adj| && b < |adj| && Adjacent(adj, a, b))
    decreases |adj| - i, |adj| - j
  {
    if i == |adj| {
    } else if j == |adj| {
      CopyPairsOnce(adj, that, i + 1, 0);
    } else if Adjacent(adj, i, j) && i < j {
      CopyOnePair(adj, that, i, j);
      CopyPairsOnce(adj, WithEdge(that, i, j), i, j + 1);
    } else {
      CopyPairsOnce(adj, that, i, j + 1);
    }
  }

  /** Copying the pair (i, j), i < j, for the first time keeps the lists free of repeats and marks the pair done. */
  lemma CopyOnePair(adj: seq<seq<int>>, that: seq<seq<int>>, i: nat, j: nat)
    requires forall v :: 0 <= v < |adj| ==> v !in adj[v]
    requires |adj| <= |that| && i < j < |adj| && Adjacent(adj, i, j)
    requires CutVertices.IsAdjacency(that) && NoRepeats(that)
    requires forall a, b :: 0 <= a < |that| && 0 <= b < |that| ==>
               (Adjacent(that, a, b) <==> a < |adj| && b < |adj| && Adjacent(adj, a, b) && Done(a, b, i, j))
    ensures var t2 := WithEdge(that, i, j);
            CutVertices.IsAdjacency(t2) && NoRepeats(t2) &&
            forall a, b :: 0 <= a < |that| && 0 <= b < |that| ==>
              (Adjacent(t2, a, b) <==> a < |adj| && b < |adj| && Adjacent(adj, a, b) && Done(a, b, i, j + 1))
  {
    var t2 := WithEdge(that, i, j);
    AdjacentWithEdge(that, i, j);
    assert !Adjacent(that, i, j);
    assert Distinct(t2[i]) && Distinct(t2[j]);
  }

  /** Pair {a, b} has been reached by the (i, j) double loop, which copies it at min/max order. */
  predicate Done(a: int, b: int, i: int, j: int)
  {
    var lo := if a < b then a else b;
    var hi := if a < b then b else a;
    lo < i || (lo == i && hi < j)
  }

  lemma AppendedKeepsEdges(adj: seq<seq<int>>, k: nat)
    requires forall v :: 0 <= v < |adj| ==> v !in adj[v]
    ensures var r := Appended(adj, k);
            |r| == |adj| + k && CutVertices.IsAdjacency(r) && NoRepeats(r) &&
            forall a, b :: 0 <= a < |r| && 0 <= b < |r| ==>
              (Adjacent(r, a, b) <==> a < |adj| && b < |adj| && Adjacent(adj, a, b))
  {
    var e: seq<seq<int>> := seq(|adj| + k, _ => []);
    assert forall a, b :: 0 <= a < |e| && 0 <= b < |e| ==> !Adjacent(e, a, b);
    CopyPairsOnce(adj, e, 0, 0);
  }

  /** Pair (a, b) has been visited by the (i, j) double loop in this order. */
  predicate Reached(a: int, b: int, i: int, j: int)
  {
    a < i || (a == i && b < j)
  }

  /**
   * The loop as written, from pair (i, j) on: every ordered pair is copied, so the lists
   * may repeat entries, but the adjacency is exactly that of the old edges.
   */
  lemma {:induction false} CopyPairsBoth(adj: seq<seq<int>>, that: seq<seq<int>>, i: nat, j: nat)
    requires forall v :: 0 <= v < |adj| ==> v !in adj[v]
    requires |adj| <= |that| && i <= |adj| && j <= |adj|
    requires CutVertices.IsAdjacency(that)
    requires forall a, b :: 0 <= a < |that| && 0 <= b < |that| ==>
               (Adjacent(that, a, b) <==>
                  a < |adj| && b < |adj| && Adjacent(adj, a, b) && (Reached(a, b, i, j) || Reached(b, a, i, j)))
    ensures var r := CopyPairs(adj, that, i, j, false);
            CutVertices.IsAdjacency(r) &&
            forall a, b :: 0 <= a < |that| && 0 <= b < |that| ==>
              (Adjacent(r, a, b) <==> a < |adj| && b < |adj| && Adjacent(adj, a, b))
    decreases |adj| - i, |adj| - j
  {
    if i == |adj| {
    } else if j == |adj| {
      CopyPairsBoth(adj, that, i + 1, 0);
    } else if Adjacent(adj, i, j) {
      var t2 := WithEdge(that, i, j);
      AdjacentWithEdge(that, i, j);
      assert CutVertices.IsAdjacency(t2);
      CopyPairsBoth(adj, t2, i, j + 1);
    } else {
      CopyPairsBoth(adj, that, i, j + 1);
    }
  }

  /** appendVertices as written keeps exactly the old edges, though each is listed twice. */
  lemma AppendedAsWrittenKeepsEdges(adj: seq<seq<int>>, k: nat)
    requires forall v :: 0 <= v < |adj| ==> v !in adj[v]
    ensures var r := AppendedAsWritten(adj, k);
            |r| == |adj| + k && CutVertices.IsAdjacency(r) &&
            forall a, b :: 0 <= a < |r| && 0 <= b < |r| ==>
              (Adjacent(r, a, b) <==> a < |adj| && b < |adj| && Adjacent(adj, a, b))
  {
    var e: seq<seq<int>> := seq(|adj| + k, _ => []);
    assert forall a, b :: 0 <= a < |e| && 0 <= b < |e| ==> !Adjacent(e, a, b);
    CopyPairsBoth(adj, e, 0, 0);
  }

  class Graph {
    var adj: seq<seq<int>>
    var numVertices: int
    var numEdges: int
    var name: string
    var time: int

    ghost predicate Valid()
      reads this
    {
      numVertices == |adj| && CutVertices.IsAdjacency(adj)
    }

    /** Graph(numVertices, name): n empty lists and no edges. */
    constructor (numVertices: nat, name: string)
      ensures Valid() && this.numVertices == numVertices && this.name == name
      ensures adj == seq(numVertices, _ => []) && numEdges == 0 && time == 0
    {
      this.numVertices := numVertices;
      this.name := name;
      this.adj := seq(numVertices, _ => []);
      this.numEdges := 0;
      this.time := 0;
    }

    predicate HasEdge(v: int, w: int)
      reads this
      requires Valid() && 0 <= v < numVertices && 0 <= w < numVertices
    {
      Adjacent(adj, v, w)
    }

    /** No vertex lists itself: every edge came through addEdge, which refuses loops. */
    predicate NoSelfLoops()
      reads this
    {
      forall v :: 0 <= v < |adj| ==> v !in adj[v]
    }

    /** addEdge(v, w): asserts v != w, links both endpoints, one more edge. */
    method AddEdge(v: int, w: int)
      requires Valid() && 0 <= v < numVertices && 0 <= w < numVertices && v != w
      modifies this
      ensures Valid() && adj == WithEdge(old(adj), v, w) && HasEdge(v, w) && HasEdge(w, v)
      ensures numEdges == old(numEdges) + 1
      ensures numVertices == old(numVertices) && name == old(name) && time == old(time)
    {
      adj := adj[v := [w] + adj[v]];
      adj := adj[w := [v] + adj[w]];
      numEdges := numEdges + 1;
    }

    /** removeEdge(v, w): nothing unless hasEdge(v, w); then unlink both sides, one edge fewer. */
    method RemoveEdge(v: int, w: int)
      requires Valid() && 0 <= v < numVertices && 0 <= w < numVertices
      modifies this
      ensures Valid()
      ensures !old(HasEdge(v, w)) ==> adj == old(adj) && numEdges == old(numEdges)
      ensures old(HasEdge(v, w)) ==> adj == WithoutEdge(old(adj), v, w) && numEdges == old(numEdges) - 1
      ensures numVertices == old(numVertices) && name == old(name) && time == old(time)
    {
      if HasEdge(v, w) {
        WithoutEdgeInRange(adj, v, w);
        adj := adj[v := RemoveFirst(adj[v], w)];
        adj := adj[w := RemoveFirst(adj[w], v)];
        numEdges := numEdges - 1;
      }
    }

    /** getConnectedComponents: every vertex in exactly one component; no edge leaves a component. */
    method GetConnectedComponents() returns (comps: seq<seq<int>>)
      requires Valid()
      ensures comps == Components.ComponentsOf(EdgeMatrix(adj))
      ensures Distinct(Flatten(comps))
      ensures forall x :: x in Flatten(comps) <==> 0 <= x < numVertices
      ensures forall k :: 0 <= k < |comps| ==> comps[k] != []
      ensures forall k, x, w ::
                (0 <= k < |comps| && x in comps[k] && 0 <= x < numVertices && 0 <= w < numVertices && HasEdge(x, w))
                ==> w in comps[k]
    {
      var E := EdgeMatrix(adj);
      comps := Components.ConnectedComponents(E);
      Components.ComponentsPartition(E);
      Components.ComponentsClosed(E);
    }

    /** getCutVertices: Tarjan's search over the adjacency lists; the marked vertices in ascending order. */
    method GetCutVertices() returns (cuts: seq<int>)
      requires Valid()
      modifies this`time
      ensures Ascending(cuts) && forall x :: x in cuts ==> 0 <= x < numVertices
      ensures CutVertices.SymmetricLists(adj) ==> forall x :: x in cuts ==> CutVertices.TwoNeighbours(adj, x)
    {
      cuts, time := CutVertices.GetCutVertices(adj, time);
    }

    /**
     * appendVertices(k): a fresh graph on n + k vertices receives addEdge(i, j) for every
     * ordered pair with hasEdge(i, j), so each old edge is added twice; its lists replace
     * the old ones and numEdges is not touched.
     */
    method AppendVertices(k: nat)
      requires Valid() && NoSelfLoops()
      modifies this
      ensures Valid() && numVertices == old(numVertices) + k
      ensures adj == AppendedAsWritten(old(adj), k)
      ensures forall a, b :: 0 <= a < numVertices && 0 <= b < numVertices ==>
                (HasEdge(a, b) <==> a < old(numVertices) && b < old(numVertices) && old(Adjacent(adj, a, b)))
      ensures numEdges == old(numEdges) && name == old(name) && time == old(time)
    {
      var n := numVertices;
      var that := new Graph(n + k, name);
      var i := 0;
      while i < n
        invariant 0 <= i <= n && fresh(that) && that.Valid() && that.numVertices == n + k
        invariant adj == old(adj) && numVertices == n && NoSelfLoops()
        invariant numEdges == old(numEdges) && name == old(name) && time == old(time)
        invariant CopyPairs(adj, that.adj, i, 0, false) == AppendedAsWritten(adj, k)
      {
        var j := 0;
        while j < n
          invariant 0 <= j <= n && that.Valid() && that.numVertices == n + k
          invariant adj == old(adj) && numVertices == n && NoSelfLoops()
          invariant numEdges == old(numEdges) && name == old(name) && time == old(time)
          invariant CopyPairs(adj, that.adj, i, j, false) == AppendedAsWritten(adj, k)
        {
          if HasEdge(i, j) {
            that.AddEdge(i, j);
          }
          j := j + 1;
        }
        i := i + 1;
      }
      numVertices := that.numVertices;
      adj := that.adj;
      AppendedAsWrittenKeepsEdges(old(adj), k);
    }

    /** equals: same number of vertices, same number of edges, same name. */
    predicate Equals(that: Graph)
      reads this, that
    {
      numVertices == that.numVertices && numEdges == that.numEdges && name == that.name
    }

    method SetName(name: string)
      modifies this`name
      ensures this.name == name
    {
      this.name := name;
    }

    /**
     * clone(): a copy with the same counters, the same name and the lists as the loop
     * as written places them (each at indexOf of the list).
     */
    method Clone() returns (c: Graph)
      requires Valid()
      ensures fresh(c) && c.Valid() && c.Equals(this)
      ensures c.adj == ClonedListsAsWritten(adj) && c.time == time
    {
      c := new Graph(numVertices, name);
      var newList: seq<seq<int>> := [];
      var k := 0;
      while k < |adj|
        invariant 0 <= k <= |adj| && newList == ClonedPrefixAsWritten(adj, k)
      {
        var index := IndexOf(adj, adj[k]);
        newList := newList[..index] + [adj[k]] + newList[index..];
        k := k + 1;
      }
      ClonedAsWrittenInRange(adj);
      c.adj := newList;
      c.numEdges := numEdges;
      c.time := time;
    }

    /**
     * clone() as intended: the copy of list k goes to position k, so the copy has the
     * original's lists and the same edges.
     */
    method CloneIntended() returns (c: Graph)
      requires Valid()
      ensures fresh(c) && c.Valid() && c.Equals(this)
      ensures c.adj == adj && c.time == time
      ensures forall a, b :: 0 <= a < numVertices && 0 <= b < numVertices ==> (c.HasEdge(a, b) <==> HasEdge(a, b))
    {
      c := new Graph(numVertices, name);
      var newList: seq<seq<int>> := [];
      var k := 0;
      while k < |adj|
        invariant 0 <= k <= |adj| && newList == adj[..k]
      {
        newList := newList + [adj[k]];
        k := k + 1;
      }
      assert newList == adj;
      c.adj := newList;
      c.numEdges := numEdges;
      c.time := time;
    }
  }

  /** The clone equals its original; renaming the clone leaves the original's name alone. */
  method CloneThenRename(g: Graph, newName: string) returns (c: Graph)
    requires g.Valid()
    modifies {}
    ensures fresh(c) && c.name == newName && g.name == old(g.name)
    ensures c.adj == ClonedListsAsWritten(g.adj) && (c.Equals(g) <==> newName == g.name)
  {
    c := g.Clone();
    assert c.Equals(g);
    c.SetName(newName);
  }
}
