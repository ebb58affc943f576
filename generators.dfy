/**
 * src/io/github/ethankelly/graph/GraphGenerator.java: the generators build an
 * adjacency-list Graph (module ListGraph) by calling addEdge in loops.  Each generator's
 * sequence of addEdge calls is a function of its inputs and of the shuffled vertex
 * order; AddEdges is the loop that issues them.  A call addEdge(v, v) fails the
 * graph's assertion, so a generator whose calls contain one ends in AssertionFailed.
 */
module Generators {
  import opened Wrappers
  import opened Rand
  import ListGraph
  import CutVertices

  // ---------------------------------------------------------------------------
  // Edge
  // ---------------------------------------------------------------------------

  /** GraphGenerator.Edge: an unordered pair stored with v <= w. */
  datatype Edge = Edge(v: int, w: int)

  /** The Edge constructor: the smaller endpoint first. */
  function MakeEdge(v: int, w: int): (e: Edge)
    ensures e.v <= e.w
    ensures (e.v == v && e.w == w) || (e.v == w && e.w == v)
  {
    if v < w then Edge(v, w) else Edge(w, v)
  }

  /** The same unordered pair gives the same Edge, whichever endpoint comes first. */
  lemma MakeEdgeSymmetric(v: int, w: int)
    ensures MakeEdge(v, w) == MakeEdge(w, v)
  {
  }

  /** Edge.compareTo as written: -1 as soon as either endpoint is smaller. */
  function CompareToAsWritten(a: Edge, b: Edge): (c: int)
    ensures c == 0 <==> a == b
    ensures -1 <= c <= 1
  {
    if a.v < b.v || a.w < b.w then -1
    else if a.v > b.v || a.w > b.w then 1
    else 0
  }

  /** (0, 5) and (1, 2) each compare below the other, which breaks the Comparable contract. */
  lemma CompareToAsWrittenNotAntisymmetric()
    ensures CompareToAsWritten(Edge(0, 5), Edge(1, 2)) == -1
    ensures CompareToAsWritten(Edge(1, 2), Edge(0, 5)) == -1
  {
  }

  /** The lexicographic comparison the Comparable contract calls for. */
  function CompareTo(a: Edge, b: Edge): (c: int)
    ensures c == 0 <==> a == b
    ensures -1 <= c <= 1
  {
    if a.v < b.v || (a.v == b.v && a.w < b.w) then -1
    else if a == b then 0
    else 1
  }

  /** The corrected comparison is antisymmetric and transitive. */
  lemma CompareToIsOrder(a: Edge, b: Edge, c: Edge)
    ensures CompareTo(a, b) == -CompareTo(b, a)
    ensures CompareTo(a, b) < 0 && CompareTo(b, c) < 0 ==> CompareTo(a, c) < 0
  {
  }

  // ---------------------------------------------------------------------------
  // Sequences of addEdge calls
  // ---------------------------------------------------------------------------

  /** Every endpoint names a vertex of an n-vertex graph. */
  predicate InRange(es: seq<(int, int)>, n: int)
  {
    forall k :: 0 <= k < |es| ==> 0 <= es[k].0 < n && 0 <= es[k].1 < n
  }

  /** No call joins a vertex to itself. */
  predicate NoLoops(es: seq<(int, int)>)
  {
    forall k :: 0 <= k < |es| ==> es[k].0 != es[k].1
  }

  /** Some call joins a and b, in either order. */
  ghost predicate Joins(es: seq<(int, int)>, a: int, b: int)
  {
    exists k :: 0 <= k < |es| && ((es[k].0 == a && es[k].1 == b) || (es[k].0 == b && es[k].1 == a))
  }

  /** The lists of a new Graph(n): all empty. */
  function Empty(n: nat): (adj: seq<seq<int>>)
    ensures |adj| == n && CutVertices.IsAdjacency(adj)
    ensures forall a, b :: 0 <= a < n && 0 <= b < n ==> !ListGraph.Adjacent(adj, a, b)
  {
    seq(n, _ => [])
  }

  /** The lists after the calls addEdge(es[0]), ..., addEdge(es[|es| - 1]). */
  function WithEdges(adj: seq<seq<int>>, es: seq<(int, int)>): (r: seq<seq<int>>)
    requires InRange(es, |adj|) && NoLoops(es)
    ensures |r| == |adj|
    ensures CutVertices.IsAdjacency(adj) ==> CutVertices.IsAdjacency(r)
  {
    if es == [] then adj
    else
      var last := es[|es| - 1];
      ListGraph.WithEdge(WithEdges(adj, es[..|es| - 1]), last.0, last.1)
  }

  /** After the calls, a and b are adjacent exactly when they were before or some call joined them. */
  lemma {:induction false} AdjacentWithEdges(adj: seq<seq<int>>, es: seq<(int, int)>, a: int, b: int)
    requires InRange(es, |adj|) && NoLoops(es) && 0 <= a < |adj| && 0 <= b < |adj|
    ensures ListGraph.Adjacent(WithEdges(adj, es), a, b) <==> ListGraph.Adjacent(adj, a, b) || Joins(es, a, b)
    decreases |es|
  {
    if es != [] {
      var init := es[..|es| - 1];
      var last := es[|es| - 1];
      AdjacentWithEdges(adj, init, a, b);
      ListGraph.AdjacentWithEdge(WithEdges(adj, init), last.0, last.1);
      JoinsSnoc(es, a, b);
    }
  }

  /** The calls join a and b exactly when the earlier calls or the last one do. */
  lemma JoinsSnoc(es: seq<(int, int)>, a: int, b: int)
    requires es != []
    ensures var last := es[|es| - 1];
            Joins(es, a, b) <==> Joins(es[..|es| - 1], a, b) || (last.0 == a && last.1 == b) || (last.0 == b && last.1 == a)
  {
    var init := es[..|es| - 1];
    if Joins(init, a, b) {
      var k :| 0 <= k < |init| && ((init[k].0 == a && init[k].1 == b) || (init[k].0 == b && init[k].1 == a));
      assert es[k] == init[k];
    }
    if Joins(es, a, b) {
      var k :| 0 <= k < |es| && ((es[k].0 == a && es[k].1 == b) || (es[k].0 == b && es[k].1 == a));
      if k < |es| - 1 {
        assert init[k] == es[k];
      }
    }
  }

  /** A generated graph's edges are exactly the pairs its calls joined. */
  lemma GeneratedAdjacency(n: nat, es: seq<(int, int)>)
    requires InRange(es, n) && NoLoops(es)
    ensures forall a, b :: 0 <= a < n && 0 <= b < n ==>
              (ListGraph.Adjacent(WithEdges(Empty(n), es), a, b) <==> Joins(es, a, b))
  {
    forall a, b | 0 <= a < n && 0 <= b < n
      ensures ListGraph.Adjacent(WithEdges(Empty(n), es), a, b) <==> Joins(es, a, b)
    {
      AdjacentWithEdges(Empty(n), es, a, b);
    }
  }

  /**
   * The addEdge loop of a generator: the calls in order, each one through Graph.addEdge.
   * A call joining a vertex to itself fails addEdge's assertion.
   */
  method AddEdges(g: ListGraph.Graph, es: seq<(int, int)>) returns (ok: bool)
    requires g.Valid() && InRange(es, g.numVertices)
    modifies g
    ensures ok <==> NoLoops(es)
    ensures g.Valid() && g.numVertices == old(g.numVertices) && g.name == old(g.name)
    ensures ok ==> g.adj == WithEdges(old(g.adj), es) && g.numEdges == old(g.numEdges) + |es|
  {
    ghost var start := g.adj;
    var i := 0;
    while i < |es|
      invariant 0 <= i <= |es| && NoLoops(es[..i])
      invariant g.Valid() && g.numVertices == old(g.numVertices) && g.name == old(g.name)
      invariant g.adj == WithEdges(start, es[..i]) && g.numEdges == old(g.numEdges) + i
    {
      if es[i].0 == es[i].1 {
        return false;
      }
      assert es[..i + 1][..i] == es[..i];
      g.AddEdge(es[i].0, es[i].1);
      i := i + 1;
    }
    assert es[..i] == es;
    return true;
  }

  /** new Graph(n, name) followed by the calls. */
  method Build(n: nat, name: string, es: seq<(int, int)>) returns (r: Result<ListGraph.Graph>)
    requires InRange(es, n)
    ensures r.Ok? <==> NoLoops(es)
    ensures r.Err? ==> r.fault == AssertionFailed
    ensures r.Ok? ==> fresh(r.value) && r.value.Valid() && r.value.numVertices == n && r.value.name == name
    ensures r.Ok? ==> r.value.adj == WithEdges(Empty(n), es) && r.value.numEdges == |es|
  {
    var g := new ListGraph.Graph(n, name);
    var ok := AddEdges(g, es);
    if !ok {
      return Err(AssertionFailed);
    }
    return Ok(g);
  }

  // ---------------------------------------------------------------------------
  // Shuffled vertex orders
  // ---------------------------------------------------------------------------

  /** Each value occurs at most once in 0, 1, ..., n-1. */
  lemma {:induction false} RangeOnce(n: nat, x: int)
    ensures multiset(Range(n))[x] <= 1
  {
    if n > 0 {
      RangeOnce(n - 1, x);
      assert Range(n) == Range(n - 1) + [n - 1];
      if x == n - 1 {
        assert x !in Range(n - 1);
      }
    }
  }

  /** A value at two positions occurs at least twice. */
  lemma CountedTwice(s: seq<int>, i: int, j: int)
    requires 0 <= i < j < |s| && s[i] == s[j]
    ensures multiset(s)[s[i]] >= 2
  {
    assert s == s[..j] + [s[j]] + s[j + 1..];
    assert s[..j][i] == s[i];
  }

  /** A shuffle of 0..n-1 lists each vertex exactly once. */
  lemma ShuffledIsOrder(vs: seq<int>, n: nat)
    requires multiset(vs) == multiset(Range(n))
    ensures |vs| == n && Distinct(vs)
    ensures forall k :: 0 <= k < |vs| ==> 0 <= vs[k] < n
    ensures forall x :: 0 <= x < n <==> x in vs
  {
    PermutationCoversRange(vs, n);
    forall i, j | 0 <= i < j < |vs| ensures vs[i] != vs[j] {
      if vs[i] == vs[j] {
        CountedTwice(vs, i, j);
        RangeOnce(n, vs[i]);
      }
    }
    forall k | 0 <= k < |vs| ensures 0 <= vs[k] < n {
      assert vs[k] in vs;
    }
  }

  /** IntStream.range(0, n).toArray() followed by Rand.shuffle. */
  method ShuffledVertices(n: nat) returns (vs: seq<int>)
    ensures multiset(vs) == multiset(Range(n))
    ensures |vs| == n && Distinct(vs) && forall k :: 0 <= k < n ==> 0 <= vs[k] < n
  {
    var a := new int[n];
    var i := 0;
    while i < n
      invariant 0 <= i <= n && a[..i] == Range(i)
    {
      a[i] := i;
      assert a[..i + 1] == a[..i] + [i];
      i := i + 1;
    }
    assert a[..] == a[0..n] && a[..n] == Range(n);
    Shuffle(a, 0, n);
    assert a[..] == a[0..n];
    vs := a[..];
    ShuffledIsOrder(vs, n);
  }

  // ---------------------------------------------------------------------------
  // complete, cycle, path, star, binaryTree
  // ---------------------------------------------------------------------------

  /** The number of pairs the complete loop adds in rows 0..i-1: (n-1) + (n-2) + ... */
  function RowsBefore(n: nat, i: nat): nat
    requires i <= n
  {
    if i == 0 then 0 else RowsBefore(n, i - 1) + (n - i)
  }

  lemma {:induction false} RowsBeforeAll(n: nat, i: nat)
    requires i <= n
    ensures 2 * RowsBefore(n, i) == i * (2 * n - i - 1)
  {
    if i > 0 {
      RowsBeforeAll(n, i - 1);
    }
  }

  /**
   * complete(n): for every (i, j) with i != j, addEdge(i, j) unless hasEdge(i, j); each
   * unordered pair is added once, in row min(i, j).
   */
  method Complete(n: nat) returns (g: ListGraph.Graph)
    ensures fresh(g) && g.Valid() && g.numVertices == n && g.name == "Complete"
    ensures g.numEdges == n * (n - 1) / 2
    ensures forall a, b :: 0 <= a < n && 0 <= b < n ==> (g.HasEdge(a, b) <==> a != b)
  {
    g := new ListGraph.Graph(n, "Complete");
    var i := 0;
    while i < n
      invariant 0 <= i <= n && fresh(g) && g.Valid() && g.numVertices == n && g.name == "Complete"
      invariant g.numEdges == RowsBefore(n, i)
      invariant forall a, b :: 0 <= a < n && 0 <= b < n ==>
                  (ListGraph.Adjacent(g.adj, a, b) <==> a != b && ListGraph.Done(a, b, i, 0))
    {
      CompleteRow(g, n, i);
      i := i + 1;
    }
    RowsBeforeAll(n, n);
  }

  /** One row of complete's double loop. */
  method CompleteRow(g: ListGraph.Graph, n: nat, i: nat)
    requires i < n && g.Valid() && g.numVertices == n
    requires forall a, b :: 0 <= a < n && 0 <= b < n ==>
               (ListGraph.Adjacent(g.adj, a, b) <==> a != b && ListGraph.Done(a, b, i, 0))
    modifies g
    ensures g.Valid() && g.numVertices == n && g.name == old(g.name)
    ensures g.numEdges == old(g.numEdges) + (n - i - 1)
    ensures forall a, b :: 0 <= a < n && 0 <= b < n ==>
              (ListGraph.Adjacent(g.adj, a, b) <==> a != b && ListGraph.Done(a, b, i + 1, 0))
  {
    var j := 0;
    while j < n
      invariant 0 <= j <= n && g.Valid() && g.numVertices == n && g.name == old(g.name)
      invariant g.numEdges == old(g.numEdges) + (if j <= i then 0 else j - i - 1)
      invariant forall a, b :: 0 <= a < n && 0 <= b < n ==>
                  (ListGraph.Adjacent(g.adj, a, b) <==> a != b && ListGraph.Done(a, b, i, if j <= i then 0 else j))
    {
      if i != j && !g.HasEdge(i, j) {
        ghost var before := g.adj;
        g.AddEdge(i, j);
        ListGraph.AdjacentWithEdge(before, i, j);
      }
      j := j + 1;
    }
  }

  /** cycle(n): addEdge(i, i + 1) for i < n - 1, then addEdge(n - 1, 0). */
  function CycleEdges(n: nat): (es: seq<(int, int)>)
    requires n >= 1
    ensures |es| == n && InRange(es, n)
  {
    seq(n - 1, i requires 0 <= i < n - 1 => (i, i + 1)) + [(n - 1, 0)]
  }

  /** A cycle on n >= 2 vertices joins each vertex to its successor, and the last to the first. */
  lemma CycleJoins(n: nat, a: int, b: int)
    requires n >= 2 && 0 <= a < n && 0 <= b < n
    ensures NoLoops(CycleEdges(n))
    ensures Joins(CycleEdges(n), a, b) <==> b == a + 1 || a == b + 1 || (a == n - 1 && b == 0) || (a == 0 && b == n - 1)
  {
    var es := CycleEdges(n);
    if b == a + 1 {
      assert es[a] == (a, b);
    } else if a == b + 1 {
      assert es[b] == (b, a);
    } else if a == n - 1 && b == 0 {
      assert es[n - 1] == (a, b);
    } else if a == 0 && b == n - 1 {
      assert es[n - 1] == (b, a);
    }
  }

  /**
   * cycle(n): vertices[n - 1] is out of bounds for n = 0, and addEdge(0, 0) fails for
   * n = 1; otherwise n calls.
   */
  method Cycle(n: nat) returns (r: Result<ListGraph.Graph>)
    ensures r.Err? <==> n <= 1
    ensures n == 0 ==> r == Err(IndexOutOfBounds)
    ensures n == 1 ==> r == Err(AssertionFailed)
    ensures r.Ok? ==> fresh(r.value) && r.value.Valid() && r.value.numVertices == n && r.value.numEdges == n
    ensures r.Ok? ==> r.value.adj == WithEdges(Empty(n), CycleEdges(n))
  {
    if n == 0 {
      return Err(IndexOutOfBounds);
    }
    if n >= 2 {
      CycleJoins(n, 0, 0);
    } else {
      assert CycleEdges(1)[0] == (0, 0);
    }
    r := Build(n, "Cycle", CycleEdges(n));
  }

  /** path: addEdge(vs[i], vs[i + 1]) for consecutive positions of the shuffled order. */
  function PathEdges(vs: seq<int>): (es: seq<(int, int)>)
    ensures |es| == if vs == [] then 0 else |vs| - 1
  {
    if vs == [] then [] else seq(|vs| - 1, i requires 0 <= i < |vs| - 1 => (vs[i], vs[i + 1]))
  }

  /** The path visits every vertex once, joining neighbours in the shuffled order and nothing else. */
  lemma PathJoins(vs: seq<int>, n: nat, a: int, b: int)
    requires |vs| == n && Distinct(vs) && forall k :: 0 <= k < n ==> 0 <= vs[k] < n
    ensures InRange(PathEdges(vs), n) && NoLoops(PathEdges(vs))
    ensures Joins(PathEdges(vs), a, b) <==>
              exists i :: 0 <= i < n - 1 && ((vs[i] == a && vs[i + 1] == b) || (vs[i] == b && vs[i + 1] == a))
  {
    var es := PathEdges(vs);
    if exists i :: 0 <= i < n - 1 && ((vs[i] == a && vs[i + 1] == b) || (vs[i] == b && vs[i + 1] == a)) {
      var i :| 0 <= i < n - 1 && ((vs[i] == a && vs[i + 1] == b) || (vs[i] == b && vs[i + 1] == a));
      assert es[i] == (vs[i], vs[i + 1]);
    }
  }

  /** path(n): n - 1 calls along a shuffled order of the vertices. */
  method Path(n: nat) returns (g: ListGraph.Graph, ghost vs: seq<int>)
    ensures multiset(vs) == multiset(Range(n)) && Distinct(vs)
    ensures InRange(PathEdges(vs), n) && NoLoops(PathEdges(vs))
    ensures fresh(g) && g.Valid() && g.numVertices == n && g.numEdges == if n == 0 then 0 else n - 1
    ensures g.adj == WithEdges(Empty(n), PathEdges(vs))
  {
    var order := ShuffledVertices(n);
    vs := order;
    PathJoins(order, n, 0, 0);
    var r := Build(n, "Path", PathEdges(order));
    g := r.value;
  }

  /** star: addEdge(vs[0], vs[i]) for every later position. */
  function StarEdges(vs: seq<int>): (es: seq<(int, int)>)
    requires vs != []
    ensures |es| == |vs| - 1
  {
    seq(|vs| - 1, i requires 0 <= i < |vs| - 1 => (vs[0], vs[i + 1]))
  }

  /** The star joins its centre vs[0] to every other vertex and joins no other pair. */
  lemma StarJoins(vs: seq<int>, n: nat, a: int, b: int)
    requires n >= 1 && |vs| == n && Distinct(vs) && forall k :: 0 <= k < n ==> 0 <= vs[k] < n
    requires forall x :: 0 <= x < n <==> x in vs
    requires 0 <= a < n && 0 <= b < n
    ensures InRange(StarEdges(vs), n) && NoLoops(StarEdges(vs))
    ensures Joins(StarEdges(vs), a, b) <==> a != b && (a == vs[0] || b == vs[0])
  {
    var es := StarEdges(vs);
    if a != b && (a == vs[0] || b == vs[0]) {
      var other := if a == vs[0] then b else a;
      assert other in vs;
      var k :| 0 <= k < n && vs[k] == other;
      assert k != 0;
      assert es[k - 1] == (vs[0], other);
    }
  }

  /** star(n): asserts n > 0, then n - 1 calls from the shuffled centre. */
  method Star(n: nat) returns (r: Result<ListGraph.Graph>, ghost vs: seq<int>)
    ensures r.Err? <==> n == 0
    ensures r.Err? ==> r.fault == AssertionFailed
    ensures r.Ok? ==> multiset(vs) == multiset(Range(n)) && vs != []
    ensures r.Ok? ==> InRange(StarEdges(vs), n) && NoLoops(StarEdges(vs))
    ensures r.Ok? ==> fresh(r.value) && r.value.Valid() && r.value.numVertices == n && r.value.numEdges == n - 1
    ensures r.Ok? ==> r.value.adj == WithEdges(Empty(n), StarEdges(vs))
  {
    if n == 0 {
      return Err(AssertionFailed), [];
    }
    var order := ShuffledVertices(n);
    vs := order;
    PermutationCoversRange(order, n);
    StarJoins(order, n, 0, 0);
    r := Build(n, "Star", StarEdges(order));
  }

  /** binaryTree: addEdge(vs[i], vs[(i - 1) / 2]) for i = 1, ..., n - 1. */
  function BinaryTreeEdges(vs: seq<int>): (es: seq<(int, int)>)
    ensures |es| == if vs == [] then 0 else |vs| - 1
  {
    if vs == [] then [] else seq(|vs| - 1, k requires 0 <= k < |vs| - 1 => (vs[k + 1], vs[k / 2]))
  }

  /** Position i of the order and its heap parent (i - 1) / 2 hold a and b. */
  predicate ParentPair(vs: seq<int>, i: int, a: int, b: int)
    requires 1 <= i < |vs|
  {
    (vs[i] == a && vs[(i - 1) / 2] == b) || (vs[i] == b && vs[(i - 1) / 2] == a)
  }

  /** No vertex is its own parent. */
  lemma BinaryTreeNoLoops(vs: seq<int>, n: nat)
    requires |vs| == n && Distinct(vs) && forall k :: 0 <= k < n ==> 0 <= vs[k] < n
    ensures InRange(BinaryTreeEdges(vs), n) && NoLoops(BinaryTreeEdges(vs))
  {
    var es := BinaryTreeEdges(vs);
    forall k | 0 <= k < |es| ensures 0 <= es[k].0 < n && 0 <= es[k].1 < n && es[k].0 != es[k].1 {
      assert es[k] == (vs[k + 1], vs[k / 2]);
    }
  }

  /** Position i is joined to its heap parent (i - 1) / 2 and to nothing else. */
  lemma BinaryTreeJoins(vs: seq<int>, n: nat, a: int, b: int)
    requires |vs| == n && Distinct(vs) && forall k :: 0 <= k < n ==> 0 <= vs[k] < n
    ensures InRange(BinaryTreeEdges(vs), n) && NoLoops(BinaryTreeEdges(vs))
    ensures Joins(BinaryTreeEdges(vs), a, b) <==> exists i :: 1 <= i < n && ParentPair(vs, i, a, b)
  {
    BinaryTreeNoLoops(vs, n);
    if exists i :: 1 <= i < n && ParentPair(vs, i, a, b) {
      var i :| 1 <= i < n && ParentPair(vs, i, a, b);
      ParentJoined(vs, i, a, b);
    }
    if Joins(BinaryTreeEdges(vs), a, b) {
      JoinedParent(vs, a, b);
    }
  }

  /** The call for position i joins it to its heap parent. */
  lemma ParentJoined(vs: seq<int>, i: int, a: int, b: int)
    requires 1 <= i < |vs| && ParentPair(vs, i, a, b)
    ensures Joins(BinaryTreeEdges(vs), a, b)
  {
    var es := BinaryTreeEdges(vs);
    assert es[i - 1] == (vs[i], vs[(i - 1) / 2]);
  }

  /** Every call joins some position to its heap parent. */
  lemma JoinedParent(vs: seq<int>, a: int, b: int)
    requires Joins(BinaryTreeEdges(vs), a, b)
    ensures exists i :: 1 <= i < |vs| && ParentPair(vs, i, a, b)
  {
    var es := BinaryTreeEdges(vs);
    var k :| 0 <= k < |es| && ((es[k].0 == a && es[k].1 == b) || (es[k].0 == b && es[k].1 == a));
    var i := k + 1;
    assert (i - 1) / 2 == k / 2;
    assert es[k] == (vs[i], vs[(i - 1) / 2]);
    assert ParentPair(vs, i, a, b);
  }

  /** binaryTree(n): n - 1 calls, each vertex to its parent in the shuffled heap order. */
  method BinaryTree(n: nat) returns (g: ListGraph.Graph, ghost vs: seq<int>)
    ensures multiset(vs) == multiset(Range(n)) && Distinct(vs)
    ensures InRange(BinaryTreeEdges(vs), n) && NoLoops(BinaryTreeEdges(vs))
    ensures fresh(g) && g.Valid() && g.numVertices == n && g.numEdges == if n == 0 then 0 else n - 1
    ensures g.adj == WithEdges(Empty(n), BinaryTreeEdges(vs))
  {
    var order := ShuffledVertices(n);
    vs := order;
    BinaryTreeJoins(order, n, 0, 0);
    var r := Build(n, "Binary Tree", BinaryTreeEdges(order));
    g := r.value;
  }

  // ---------------------------------------------------------------------------
  // simple
  // ---------------------------------------------------------------------------

  /** The unordered pairs of distinct vertices below n, as Edges. */
  ghost function AllPairs(n: int): set<Edge>
  {
    set v, w | 0 <= v < w < n :: Edge(v, w)
  }

  /** The pairs joining a vertex below k to c. */
  ghost function Column(k: int, c: int): set<Edge>
  {
    set v | 0 <= v < k :: Edge(v, c)
  }

  lemma {:induction false} ColumnSize(k: nat, c: int)
    ensures |Column(k, c)| == k
  {
    if k > 0 {
      ColumnSize(k - 1, c);
      assert Column(k, c) == Column(k - 1, c) + {Edge(k - 1, c)};
    }
  }

  /** The pairs below n are the pairs below n - 1 and the pairs ending at n - 1. */
  lemma AllPairsSplit(n: nat)
    requires n > 0
    ensures AllPairs(n) == AllPairs(n - 1) + Column(n - 1, n - 1)
    ensures AllPairs(n - 1) !! Column(n - 1, n - 1)
  {
    forall e | e in AllPairs(n) ensures e in AllPairs(n - 1) + Column(n - 1, n - 1) {
      var v, w :| 0 <= v < w < n && e == Edge(v, w);
      if w < n - 1 {
        assert e in AllPairs(n - 1);
      } else {
        assert e in Column(n - 1, n - 1);
      }
    }
  }

  /** There are n(n-1)/2 unordered pairs of distinct vertices. */
  lemma {:induction false} AllPairsSize(n: nat)
    ensures 2 * |AllPairs(n)| == n * (n - 1)
  {
    if n > 0 {
      AllPairsSize(n - 1);
      ColumnSize(n - 1, n - 1);
      AllPairsSplit(n);
      assert |AllPairs(n)| == |AllPairs(n - 1)| + (n - 1);
      PairsStep(n, |AllPairs(n - 1)|);
    }
  }

  lemma PairsStep(n: nat, p: int)
    requires n > 0 && 2 * p == (n - 1) * (n - 2)
    ensures 2 * (p + (n - 1)) == n * (n - 1)
  {
    assert (n - 1) * (n - 2) + 2 * (n - 1) == n * (n - 1);
  }

  /** Fewer than n(n-1)/2 pairs in use leaves a pair of distinct vertices unused. */
  lemma SomePairLeft(n: nat, used: set<Edge>)
    requires used <= AllPairs(n) && 2 * |used| < n * (n - 1)
    ensures exists v, w :: 0 <= v < w < n && Edge(v, w) !in used
  {
    AllPairsSize(n);
    if AllPairs(n) <= used {
      SubsetSize(AllPairs(n), used);
    }
    var e :| e in AllPairs(n) && e !in used;
    var v, w :| 0 <= v < w < n && e == Edge(v, w);
  }

  /** No two calls join the same two vertices. */
  predicate NoRepeatedEdges(es: seq<(int, int)>)
  {
    forall i, j :: 0 <= i < j < |es| ==> MakeEdge(es[i].0, es[i].1) != MakeEdge(es[j].0, es[j].1)
  }

  /** The unordered pairs the calls join. */
  ghost function EdgesOf(es: seq<(int, int)>): set<Edge>
  {
    set k | 0 <= k < |es| :: MakeEdge(es[k].0, es[k].1)
  }

  /** The unordered pairs a graph's lists join: its edges, each counted once. */
  ghost function EdgeSet(adj: seq<seq<int>>): set<Edge>
  {
    set v, w | 0 <= v < w < |adj| && ListGraph.Adjacent(adj, v, w) :: Edge(v, w)
  }

  /** A generated graph's edges are the pairs its calls join. */
  lemma EdgeSetGenerated(n: nat, es: seq<(int, int)>)
    requires InRange(es, n) && NoLoops(es)
    ensures EdgeSet(WithEdges(Empty(n), es)) == EdgesOf(es)
  {
    var adj := WithEdges(Empty(n), es);
    GeneratedAdjacency(n, es);
    forall e | e in EdgeSet(adj) ensures e in EdgesOf(es) {
      var v, w :| 0 <= v < w < n && ListGraph.Adjacent(adj, v, w) && e == Edge(v, w);
      var k :| 0 <= k < |es| && ((es[k].0 == v && es[k].1 == w) || (es[k].0 == w && es[k].1 == v));
      assert MakeEdge(es[k].0, es[k].1) == e;
    }
    forall e | e in EdgesOf(es) ensures e in EdgeSet(adj) {
      var k :| 0 <= k < |es| && e == MakeEdge(es[k].0, es[k].1);
      assert Joins(es, e.v, e.w);
    }
  }

  /** Calls that never repeat a pair join as many pairs as there are calls. */
  lemma {:induction false} EdgesOfSize(es: seq<(int, int)>)
    requires NoRepeatedEdges(es)
    ensures |EdgesOf(es)| == |es|
  {
    if es != [] {
      var init := es[..|es| - 1];
      assert NoRepeatedEdges(init) by {
        forall i, j | 0 <= i < j < |init|
          ensures MakeEdge(init[i].0, init[i].1) != MakeEdge(init[j].0, init[j].1)
        {
          assert init[i] == es[i] && init[j] == es[j];
        }
      }
      EdgesOfSize(init);
      EdgesOfSnoc(es);
      LastEdgeNew(es);
    }
  }

  /** The pairs of all calls are those of the earlier calls and that of the last. */
  lemma EdgesOfSnoc(es: seq<(int, int)>)
    requires es != []
    ensures EdgesOf(es) == EdgesOf(es[..|es| - 1]) + {MakeEdge(es[|es| - 1].0, es[|es| - 1].1)}
  {
    var init := es[..|es| - 1];
    var last := es[|es| - 1];
    forall e | e in EdgesOf(es) ensures e in EdgesOf(init) + {MakeEdge(last.0, last.1)} {
      var k :| 0 <= k < |es| && e == MakeEdge(es[k].0, es[k].1);
      if k < |init| {
        assert init[k] == es[k];
      }
    }
    forall e | e in EdgesOf(init) ensures e in EdgesOf(es) {
      var k :| 0 <= k < |init| && e == MakeEdge(init[k].0, init[k].1);
      assert es[k] == init[k];
    }
  }

  /** Without repeats, the last call joins a pair no earlier call joined. */
  lemma LastEdgeNew(es: seq<(int, int)>)
    requires es != [] && NoRepeatedEdges(es)
    ensures MakeEdge(es[|es| - 1].0, es[|es| - 1].1) !in EdgesOf(es[..|es| - 1])
  {
    var init := es[..|es| - 1];
    var last := es[|es| - 1];
    forall k | 0 <= k < |init| ensures MakeEdge(init[k].0, init[k].1) != MakeEdge(last.0, last.1) {
      assert es[k] == init[k];
    }
  }

  /** An edge object of simple's HashSet: Edge overrides neither equals nor hashCode, so the set tells objects apart by identity. */
  class EdgeObject {
    const edge: Edge

    constructor (v: int, w: int)
      ensures edge == MakeEdge(v, w)
    {
      edge := MakeEdge(v, w);
    }
  }

  /** The extra call of the loop: the graph and the record of calls grow together. */
  lemma WithOneMore(n: nat, es: seq<(int, int)>, v: int, w: int)
    requires InRange(es, n) && NoLoops(es) && 0 <= v < n && 0 <= w < n && v != w
    ensures InRange(es + [(v, w)], n) && NoLoops(es + [(v, w)])
    ensures WithEdges(Empty(n), es + [(v, w)]) == ListGraph.WithEdge(WithEdges(Empty(n), es), v, w)
  {
    assert (es + [(v, w)])[..|es|] == es;
  }

  /** A positive number of edges at most n(n-1)/2 needs two vertices. */
  lemma TwoVertices(n: nat, m: int)
    requires 0 < m && 2 * m <= n * (n - 1)
    ensures n >= 2
  {
  }

  /**
   * simple(n, m) as written: asserts 0 <= m <= n(n-1)/2, then draws pairs until m calls
   * are made.  Its test refuses a loop, and asks the HashSet for a new Edge object, which
   * is never there, so a pair drawn twice is added twice.  A refused draw changes nothing,
   * so each turn of the model takes the next draw the test accepts.
   */
  method SimpleAsWritten(n: nat, m: int) returns (r: Result<ListGraph.Graph>, ghost es: seq<(int, int)>)
    ensures r.Err? <==> m < 0 || m > n * (n - 1) / 2
    ensures r.Err? ==> r.fault == AssertionFailed
    ensures r.Ok? ==> |es| == m && InRange(es, n) && NoLoops(es)
    ensures r.Ok? ==> fresh(r.value) && r.value.Valid() && r.value.numVertices == n && r.value.name == "Simple"
    ensures r.Ok? ==> r.value.adj == WithEdges(Empty(n), es) && r.value.numEdges == m
  {
    es := [];
    if m > n * (n - 1) / 2 || m < 0 {
      return Err(AssertionFailed), es;
    }
    var g := new ListGraph.Graph(n, "Simple");
    var added: set<EdgeObject> := {};
    while g.numEdges < m
      invariant fresh(g) && g.Valid() && g.numVertices == n && g.name == "Simple"
      invariant InRange(es, n) && NoLoops(es) && g.numEdges == |es| <= m
      invariant g.adj == WithEdges(Empty(n), es)
      decreases m - g.numEdges
    {
      TwoVertices(n, m);
      assert 0 <= 0 < n && 0 <= 1 < n;
      var v, w :| 0 <= v < n && 0 <= w < n && v != w;
      var e := new EdgeObject(v, w);
      if v != w && e !in added {
        added := added + {e};
        WithOneMore(n, es, v, w);
        g.AddEdge(v, w);
        es := es + [(v, w)];
      }
    }
    return Ok(g), es;
  }

  /**
   * The calls (0, 1) then (1, 0) pass the as-written test on three vertices with m = 2,
   * yet they join one pair: the graph counts two edges and has one.
   */
  lemma SimpleAsWrittenRepeatsEdge()
    ensures MakeEdge(0, 1) == MakeEdge(1, 0)
    ensures var es := [(0, 1), (1, 0)];
      |es| == 2 && InRange(es, 3) && NoLoops(es) && !NoRepeatedEdges(es)
    ensures |EdgeSet(WithEdges(Empty(3), [(0, 1), (1, 0)]))| == 1
  {
    JoinedTwice();
    var adj := WithEdges(Empty(3), [(0, 1), (1, 0)]);
    OneEdge(adj);
    assert MakeEdge(0, 1) == MakeEdge(1, 0);
  }

  /** Vertices 0 and 1 listed in each other's lists, 2 in none: a single edge. */
  lemma OneEdge(adj: seq<seq<int>>)
    requires |adj| == 3 && adj[0] == [1, 1] && adj[1] == [0, 0] && adj[2] == []
    ensures EdgeSet(adj) == {Edge(0, 1)}
  {
    assert ListGraph.Adjacent(adj, 0, 1);
    forall e | e in EdgeSet(adj) ensures e == Edge(0, 1) {
      var v, w :| 0 <= v < w < 3 && ListGraph.Adjacent(adj, v, w) && e == Edge(v, w);
    }
  }

  /** Adding (0, 1) then (1, 0) lists each endpoint twice in the other's list. */
  lemma JoinedTwice()
    ensures var adj := WithEdges(Empty(3), [(0, 1), (1, 0)]);
            |adj| == 3 && adj[0] == [1, 1] && adj[1] == [0, 0] && adj[2] == []
  {
    var es: seq<(int, int)> := [(0, 1), (1, 0)];
    var none: seq<(int, int)> := [];
    assert es[..1] == [(0, 1)] && es[..1][..0] == none;
    assert Empty(3) == [[], [], []];
    assert WithEdges(Empty(3), none) == Empty(3);
    var one := ListGraph.WithEdge(Empty(3), 0, 1);
    assert one[0] == [1] && one[1] == [0] && one[2] == [];
    assert WithEdges(Empty(3), es[..1]) == one == [[1], [0], []];
  }

  /**
   * simple(n, m) with Edge compared by its endpoints: asserts 0 <= m <= n(n-1)/2, then
   * adds m different pairs of distinct vertices, so the graph has exactly m edges.
   */
  method Simple(n: nat, m: int) returns (r: Result<ListGraph.Graph>, ghost es: seq<(int, int)>)
    ensures r.Err? <==> m < 0 || m > n * (n - 1) / 2
    ensures r.Err? ==> r.fault == AssertionFailed
    ensures r.Ok? ==> |es| == m && InRange(es, n) && NoLoops(es) && NoRepeatedEdges(es)
    ensures r.Ok? ==> fresh(r.value) && r.value.Valid() && r.value.numVertices == n && r.value.name == "Simple"
    ensures r.Ok? ==> r.value.adj == WithEdges(Empty(n), es) && r.value.numEdges == m
    ensures r.Ok? ==> |EdgeSet(r.value.adj)| == m
  {
    es := [];
    if m > n * (n - 1) / 2 || m < 0 {
      return Err(AssertionFailed), es;
    }
    var g := new ListGraph.Graph(n, "Simple");
    var added: set<Edge> := {};
    while g.numEdges < m
      invariant fresh(g) && g.Valid() && g.numVertices == n && g.name == "Simple"
      invariant InRange(es, n) && NoLoops(es) && NoRepeatedEdges(es) && g.numEdges == |es| <= m
      invariant g.adj == WithEdges(Empty(n), es)
      invariant added <= AllPairs(n) && |added| == |es|
      invariant forall k :: 0 <= k < |es| ==> MakeEdge(es[k].0, es[k].1) in added
      decreases m - g.numEdges
    {
      assert 2 * |added| < n * (n - 1);
      SomePairLeft(n, added);
      var a, b :| 0 <= a < b < n && Edge(a, b) !in added;
      assert MakeEdge(a, b) == Edge(a, b);
      var v, w :| 0 <= v < n && 0 <= w < n && v != w && MakeEdge(v, w) !in added;
      var e := MakeEdge(v, w);
      if v != w && e !in added {
        assert e in AllPairs(n);
        added := added + {e};
        WithOneMore(n, es, v, w);
        g.AddEdge(v, w);
        es := es + [(v, w)];
      }
    }
    EdgeSetGenerated(n, es);
    EdgesOfSize(es);
    return Ok(g), es;
  }

  // ---------------------------------------------------------------------------
  // regular
  // ---------------------------------------------------------------------------

  /** The vertices array of regular before the shuffle: k copies of each vertex, position v + n*j holding v. */
  function Copies(n: nat, k: nat): (s: seq<int>)
    ensures |s| == n * k
  {
    if n == 0 then [] else seq(n * k, i requires 0 <= i < n * k => i % n)
  }

  /** A nonzero multiple of d is at least d away from 0. */
  lemma MulBeyond(d: int, t: int)
    requires d > 0
    ensures t >= 1 ==> d * t >= d
    ensures t <= -1 ==> d * t <= -d
  {
  }

  /** Euclidean division recovers quotient and remainder. */
  lemma DivModUnique(d: int, q: int, r: int)
    requires d > 0 && 0 <= r < d
    ensures (d * q + r) / d == q && (d * q + r) % d == r
  {
    var x := d * q + r;
    assert d * (q - x / d) == x % d - r;
    MulBeyond(d, q - x / d);
  }

  /** Position v + n*j lies in the array and is read back as vertex v, copy j. */
  lemma Position(n: nat, k: nat, v: int, j: int)
    requires 0 <= v < n && 0 <= j < k
    ensures 0 <= v + n * j < n * k && (v + n * j) % n == v && (v + n * j) / n == j
  {
    DivModUnique(n, j, v);
    MulBeyond(n, k - j);
    assert n * k == n * j + n * (k - j);
  }

  /** Every position of the array is some v + n*j. */
  lemma Split(n: nat, k: nat, i: int)
    requires n > 0 && 0 <= i < n * k
    ensures 0 <= i / n < k && i == i % n + n * (i / n)
  {
  }

  /**
   * The double loop of regular: vertices[v + n*j] = v for every vertex v and copy j,
   * in a new int array.
   */
  method FillCopies(n: nat, k: nat) returns (a: array<int>)
    ensures fresh(a) && a[..] == Copies(n, k)
  {
    a := new int[n * k](_ => 0);
    if n == 0 {
      return;
    }
    var v := 0;
    while v < n
      invariant 0 <= v <= n
      invariant forall i :: 0 <= i < n * k && i % n < v ==> a[i] == i % n
    {
      var j := 0;
      while j < k
        invariant 0 <= j <= k
        invariant forall i :: 0 <= i < n * k && (i % n < v || (i % n == v && i / n < j)) ==> a[i] == i % n
      {
        Position(n, k, v, j);
        a[v + n * j] := v;
        forall i | 0 <= i < n * k && i % n == v && i / n == j
          ensures i == v + n * j
        {
          Split(n, k, i);
        }
        j := j + 1;
      }
      forall i | 0 <= i < n * k
        ensures i / n < k
      {
        Split(n, k, i);
      }
      v := v + 1;
    }
  }

  /** Shifting a position by n keeps its vertex. */
  lemma ModShift(n: nat, q: nat, j: int)
    requires 0 <= j < n
    ensures (n * q + j) % n == j
  {
    Position(n, q + 1, j, q);
  }

  /** One more copy appends the vertices 0 .. n-1 once more. */
  lemma CopiesSplit(n: nat, k: nat)
    requires n > 0 && k > 0
    ensures Copies(n, k) == Copies(n, k - 1) + Range(n)
  {
    var m := n * (k - 1);
    CopiesLast(n, k, m);
    var c, a := Copies(n, k), Copies(n, k - 1);
    assert |c| == m + n;
    forall i | 0 <= i < m ensures c[i] == (a + Range(n))[i] {
    }
    forall i | m <= i < m + n ensures c[i] == (a + Range(n))[i] {
      assert c[m + (i - m)] == Range(n)[i - m];
    }
    assert c == a + Range(n);
  }

  /** The last n positions of k copies hold 0 .. n-1. */
  lemma CopiesLast(n: nat, k: nat, m: nat)
    requires n > 0 && k > 0 && m == n * (k - 1)
    ensures |Copies(n, k)| == m + n
    ensures forall j :: 0 <= j < n ==> Copies(n, k)[m + j] == Range(n)[j]
  {
    assert n * k == m + n;
    forall j | 0 <= j < n ensures Copies(n, k)[m + j] == Range(n)[j] {
      ModShift(n, k - 1, j);
    }
  }

  /** The vertices 0 .. n-1 hold each vertex below n once and nothing else. */
  lemma RangeCount(n: nat, x: int)
    ensures multiset(Range(n))[x] == if 0 <= x < n then 1 else 0
  {
    RangeOnce(n, x);
    if 0 <= x < n {
      assert Range(n)[x] == x;
    } else {
      assert x !in Range(n);
    }
  }

  /** The array holds each vertex k times and nothing else. */
  lemma {:induction false} CopiesCount(n: nat, k: nat, x: int)
    ensures multiset(Copies(n, k))[x] == if 0 <= x < n then k else 0
  {
    if n > 0 && k > 0 {
      CopiesCount(n, k - 1, x);
      CopiesSplit(n, k);
      RangeCount(n, x);
    } else if n == 0 {
      assert Copies(n, k) == [];
    } else {
      assert n * k == 0;
    }
  }

  /** regular's calls: the shuffled array read in consecutive pairs (2i, 2i + 1). */
  function RegularEdges(vs: seq<int>): (es: seq<(int, int)>)
    ensures |es| == |vs| / 2
  {
    seq(|vs| / 2, i requires 0 <= i < |vs| / 2 => (vs[2 * i], vs[2 * i + 1]))
  }

  /** The endpoints of the calls, two per call. */
  function Ends(es: seq<(int, int)>): multiset<int>
  {
    if es == [] then multiset{} else Ends(es[..|es| - 1]) + multiset{es[|es| - 1].0, es[|es| - 1].1}
  }

  /** The last pair of an even-length array is the last call. */
  lemma RegularEdgesLast(vs: seq<int>)
    requires |vs| >= 2 && |vs| % 2 == 0
    ensures RegularEdges(vs) == RegularEdges(vs[..|vs| - 2]) + [(vs[|vs| - 2], vs[|vs| - 1])]
  {
    var init := vs[..|vs| - 2];
    var es := RegularEdges(vs);
    var m := |vs| / 2;
    forall p | 0 <= p < m - 1 ensures es[p] == RegularEdges(init)[p] {
      assert init[2 * p] == vs[2 * p] && init[2 * p + 1] == vs[2 * p + 1];
    }
  }

  /** Reading an even-length array in pairs uses every position once. */
  lemma {:induction false} RegularEnds(vs: seq<int>)
    requires |vs| % 2 == 0
    ensures Ends(RegularEdges(vs)) == multiset(vs)
    decreases |vs|
  {
    if vs != [] {
      var init := vs[..|vs| - 2];
      var a, b := vs[|vs| - 2], vs[|vs| - 1];
      RegularEnds(init);
      RegularEdgesLast(vs);
      var es := RegularEdges(init) + [(a, b)];
      assert es[..|es| - 1] == RegularEdges(init);
      assert vs == init + [a, b];
    }
  }

  /** Each call puts one entry in the list of each endpoint. */
  lemma {:induction false} DegreeWithEdges(adj: seq<seq<int>>, es: seq<(int, int)>, x: int)
    requires InRange(es, |adj|) && NoLoops(es) && 0 <= x < |adj|
    ensures |WithEdges(adj, es)[x]| == |adj[x]| + Ends(es)[x]
    decreases |es|
  {
    if es != [] {
      DegreeWithEdges(adj, es[..|es| - 1], x);
    }
  }

  /**
   * regular(n, k): asserts n*k is even, fills k copies of each vertex, shuffles them and
   * joins positions 2i and 2i + 1 for i < n*k/2.  Two copies of one vertex side by side
   * fail addEdge's assertion; otherwise every vertex lists exactly k neighbours (a pair
   * can be joined more than once).
   */
  method Regular(n: nat, k: nat) returns (r: Result<ListGraph.Graph>, ghost vs: seq<int>)
    ensures r.Err? ==> r.fault == AssertionFailed
    ensures (n * k) % 2 != 0 ==> r.Err?
    ensures (n * k) % 2 == 0 ==> multiset(vs) == multiset(Copies(n, k)) && InRange(RegularEdges(vs), n)
    ensures (n * k) % 2 == 0 ==> (r.Ok? <==> NoLoops(RegularEdges(vs)))
    ensures r.Ok? ==> fresh(r.value) && r.value.Valid() && r.value.numVertices == n
    ensures r.Ok? ==> r.value.name == Show(k) + "-Regular"
    ensures r.Ok? ==> r.value.numEdges == n * k / 2 && r.value.adj == WithEdges(Empty(n), RegularEdges(vs))
    ensures r.Ok? ==> forall x :: 0 <= x < n ==> |r.value.adj[x]| == k
  {
    vs := [];
    if (n * k) % 2 != 0 {
      return Err(AssertionFailed), vs;
    }
    var a := FillCopies(n, k);
    assert a[..] == a[0..a.Length] && a.Length == n * k;
    Shuffle(a, 0, a.Length);
    assert a[..] == a[0..a.Length];
    var order := a[..];
    vs := order;
    assert multiset(vs) == multiset(Copies(n, k)) && |vs| == n * k;
    forall x | x in vs
      ensures 0 <= x < n
    {
      assert x in multiset(vs);
      CopiesCount(n, k, x);
    }
    var es := RegularEdges(order);
    assert InRange(es, n) by {
      forall p | 0 <= p < |es| ensures 0 <= es[p].0 < n && 0 <= es[p].1 < n {
        assert vs[2 * p] in vs && vs[2 * p + 1] in vs;
      }
    }
    r := Build(n, Show(k) + "-Regular", es);
    if r.Ok? {
      RegularEnds(vs);
      var adj := r.value.adj;
      assert Ends(es) == multiset(vs);
      forall x | 0 <= x < n
        ensures |adj[x]| == k
      {
        DegreeWithEdges(Empty(n), es, x);
        CopiesCount(n, k, x);
        assert |Empty(n)[x]| == 0;
      }
    }
  }

  // ---------------------------------------------------------------------------
  // parseIntegers
  // ---------------------------------------------------------------------------

  predicate IsDigit(c: char)
  {
    '0' <= c <= '9'
  }

  predicate AllDigits(s: string)
  {
    forall i :: 0 <= i < |s| ==> IsDigit(s[i])
  }

  /** The value of a string of decimal digits. */
  function DigitsValue(s: string): nat
    requires AllDigits(s)
  {
    if s == [] then 0 else 10 * DigitsValue(s[..|s| - 1]) + (s[|s| - 1] as int - '0' as int)
  }

  /**
   * Integer.parseInt(s) on ASCII text: an optional sign, then at least one digit, with a
   * value in the int range; anything else raises NumberFormatException (None).
   */
  function ParseInt(s: string): (r: Option<int>)
    ensures r.Some? ==> -IntMax - 1 <= r.value <= IntMax
    ensures r.Some? ==> |s| > 0 && (IsDigit(s[0]) || s[0] == '-' || s[0] == '+')
  {
    var signed := |s| > 0 && (s[0] == '-' || s[0] == '+');
    var digits := if signed then s[1..] else s;
    if digits == [] || !AllDigits(digits) then None
    else
      var value: int := DigitsValue(digits);
      var x := if signed && s[0] == '-' then -value else value;
      if -IntMax - 1 <= x <= IntMax then Some(x) else None
  }

  /** The decimal digits of a natural number, without leading zeros. */
  function ShowNat(x: nat): (s: string)
    ensures |s| > 0 && AllDigits(s)
  {
    if x < 10 then [('0' as int + x) as char] else ShowNat(x / 10) + [('0' as int + x % 10) as char]
  }

  /** Integer.toString(x), as string concatenation writes an int. */
  function Show(x: int): string
  {
    if x < 0 then "-" + ShowNat(-x) else ShowNat(x)
  }

  lemma {:induction false} ShowNatValue(x: nat)
    ensures DigitsValue(ShowNat(x)) == x
  {
    if x >= 10 {
      ShowNatValue(x / 10);
      var s := ShowNat(x);
      assert s[..|s| - 1] == ShowNat(x / 10);
    }
  }

  /** parseInt reads back every int that toString writes. */
  lemma ParseShow(x: int)
    requires -IntMax - 1 <= x <= IntMax
    ensures ParseInt(Show(x)) == Some(x)
  {
    if x < 0 {
      ShowNatValue(-x);
      assert Show(x)[1..] == ShowNat(-x);
    } else {
      ShowNatValue(x);
    }
  }

  /**
   * parseIntegers(args): one int per argument, in a new array; an argument parseInt
   * refuses leaves its slot at 0 (the printed message is not modelled).
   */
  method ParseIntegers(args: seq<string>) returns (parsed: array<int>)
    ensures fresh(parsed) && parsed.Length == |args|
    ensures forall i :: 0 <= i < |args| && ParseInt(args[i]).Some? ==> parsed[i] == ParseInt(args[i]).value
    ensures forall i :: 0 <= i < |args| && ParseInt(args[i]).None? ==> parsed[i] == 0
  {
    parsed := new int[|args|](_ => 0);
    var i := 0;
    while i < |args|
      invariant 0 <= i <= |args|
      invariant forall p :: 0 <= p < i && ParseInt(args[p]).Some? ==> parsed[p] == ParseInt(args[p]).value
      invariant forall p :: 0 <= p < |args| && (p >= i || ParseInt(args[p]).None?) ==> parsed[p] == 0
    {
      var x := ParseInt(args[i]);
      if x.Some? {
        parsed[i] := x.value;
      }
      i := i + 1;
    }
  }
}
