/**
 * src/io/github/ethankelly/graph/PathFinder.java: every simple path between every pair of
 * vertices, by depth-first search.  dfs pushes a vertex on the path deque and marks it
 * on the path, records the deque (top first) when the target is reached and otherwise
 * recurses into each neighbour not on the path; then pops and unmarks.  A path with k
 * vertices goes into allPaths[k - 1].
 *
 * The graph is the adjacency-list Graph of ListGraph; its vertex at position i is
 * vertex i, so `getVertices().indexOf(w)` is w.  A recorded path is the deque read from
 * the top: it starts at the target and ends at the vertex the search started from.
 */
module PathFinding {
  import opened Wrappers
  import opened CutVertices
  import ListGraph

  // ---------------------------------------------------------------------------
  // The paths dfs records, in the order it records them
  // ---------------------------------------------------------------------------

  /** The vertices below n not on the stack. */
  function Remaining(n: nat, st: seq<int>): set<int>
  {
    set x | 0 <= x < n && x !in st
  }

  /** Pushing a vertex that was not on the stack leaves fewer vertices to visit. */
  lemma PushShrinks(n: nat, st: seq<int>, v: int)
    requires 0 <= v < n && v !in st
    ensures Remaining(n, [v] + st) < Remaining(n, st)
  {
    assert v in Remaining(n, st) && v !in Remaining(n, [v] + st);
  }

  /** dfs(v, t) with the stack st: the paths it records. */
  function Walk(adj: seq<seq<int>>, st: seq<int>, v: int, t: int): seq<seq<int>>
    requires IsAdjacency(adj) && 0 <= v < |adj| && v !in st
    decreases Remaining(|adj|, st), 0
  {
    PushShrinks(|adj|, st, v);
    if v == t then [[v] + st]
    else Branch(adj, [v] + st, adj[v], t)
  }

  /** The loop over the neighbours ws, with the stack st: the paths it records. */
  function Branch(adj: seq<seq<int>>, st: seq<int>, ws: seq<int>, t: int): seq<seq<int>>
    requires IsAdjacency(adj) && forall i :: 0 <= i < |ws| ==> 0 <= ws[i] < |adj|
    decreases Remaining(|adj|, st), |ws|
  {
    if ws == [] then []
    else
      var w := ws[|ws| - 1];
      Branch(adj, st, ws[..|ws| - 1], t) + (if w in st then [] else Walk(adj, st, w, t))
  }

  /** One more neighbour adds the paths of the call on it, when it is not on the stack. */
  lemma BranchPrefix(adj: seq<seq<int>>, st: seq<int>, ws: seq<int>, i: int, t: int)
    requires IsAdjacency(adj) && forall k :: 0 <= k < |ws| ==> 0 <= ws[k] < |adj|
    requires 0 <= i < |ws|
    ensures Branch(adj, st, ws[..i + 1], t) ==
            Branch(adj, st, ws[..i], t) + (if ws[i] in st then [] else Walk(adj, st, ws[i], t))
  {
    assert ws[..i + 1][..i] == ws[..i];
  }

  /** The stack is in range and repeats nothing. */
  predicate Stack(n: nat, st: seq<int>)
  {
    Distinct(st) && forall k :: 0 <= k < |st| ==> 0 <= st[k] < n
  }

  /**
   * p is a simple path from v to t, written from t back to v, each vertex a neighbour
   * of the next one.
   */
  predicate SimplePath(adj: seq<seq<int>>, p: seq<int>, v: int, t: int)
  {
    |p| > 0 && p[0] == t && p[|p| - 1] == v && Stack(|adj|, p) &&
    forall k :: 0 <= k < |p| - 1 ==> p[k] in adj[p[k + 1]]
  }

  /** A path recorded by the loop over ws was recorded by the call on one of the ws. */
  lemma {:induction false} BranchMember(adj: seq<seq<int>>, st: seq<int>, ws: seq<int>, t: int, p: seq<int>)
    requires IsAdjacency(adj) && forall i :: 0 <= i < |ws| ==> 0 <= ws[i] < |adj|
    requires p in Branch(adj, st, ws, t)
    ensures exists i :: 0 <= i < |ws| && ws[i] !in st && p in Walk(adj, st, ws[i], t)
  {
    var init := ws[..|ws| - 1];
    var w := ws[|ws| - 1];
    if p in Branch(adj, st, init, t) {
      BranchMember(adj, st, init, t, p);
      var i :| 0 <= i < |init| && init[i] !in st && p in Walk(adj, st, init[i], t);
      assert ws[i] == init[i];
    } else {
      assert w !in st && p in Walk(adj, st, w, t);
    }
  }

  /** The loop over ws records whatever the call on a neighbour not on the stack records. */
  lemma {:induction false} BranchHas(adj: seq<seq<int>>, st: seq<int>, ws: seq<int>, t: int, i: int, p: seq<int>)
    requires IsAdjacency(adj) && forall k :: 0 <= k < |ws| ==> 0 <= ws[k] < |adj|
    requires 0 <= i < |ws| && ws[i] !in st && p in Walk(adj, st, ws[i], t)
    ensures p in Branch(adj, st, ws, t)
  {
    var init := ws[..|ws| - 1];
    if i < |ws| - 1 {
      assert init[i] == ws[i];
      BranchHas(adj, st, init, t, i, p);
    }
  }

  /**
   * Soundness: a path recorded by dfs(v, t) on the stack st is a simple path from v to t,
   * written back from t, followed by the stack.
   */
  lemma {:induction false} WalkSound(adj: seq<seq<int>>, st: seq<int>, v: int, t: int, p: seq<int>)
    requires IsAdjacency(adj) && 0 <= v < |adj| && v !in st && Stack(|adj|, st)
    requires p in Walk(adj, st, v, t)
    ensures |p| > |st| && p[|p| - |st|..] == st && SimplePath(adj, p[..|p| - |st|], v, t)
    ensures Stack(|adj|, p)
    decreases Remaining(|adj|, st)
  {
    var st' := [v] + st;
    assert Stack(|adj|, st') by {
      DistinctConcat([v], st);
    }
    if v == t {
      assert p == st';
      assert p[..|p| - |st|] == [v];
    } else {
      BranchMember(adj, st', adj[v], t, p);
      var i :| 0 <= i < |adj[v]| && adj[v][i] !in st' && p in Walk(adj, st', adj[v][i], t);
      PushShrinks(|adj|, st, v);
      WalkSound(adj, st', adj[v][i], t, p);
      SoundStep(adj, st, v, adj[v][i], t, p);
    }
  }

  /** A path back from t to w, then v, then the stack, is a path back from t to v. */
  lemma SoundStep(adj: seq<seq<int>>, st: seq<int>, v: int, w: int, t: int, p: seq<int>)
    requires IsAdjacency(adj) && 0 <= v < |adj| && w in adj[v]
    requires |p| > |st| + 1 && p[|p| - |st| - 1..] == [v] + st
    requires SimplePath(adj, p[..|p| - |st| - 1], w, t) && Stack(|adj|, p)
    ensures p[|p| - |st|..] == st && SimplePath(adj, p[..|p| - |st|], v, t)
  {
    var q := p[..|p| - |st| - 1];
    assert p[|p| - |st|..] == ([v] + st)[1..];
    var r := p[..|p| - |st|];
    assert r == q + [v] by {
      assert p[|p| - |st| - 1] == v;
    }
    assert Stack(|adj|, r) by {
      assert forall a, b :: 0 <= a < b < |r| ==> r[a] == p[a] && r[b] == p[b];
    }
    assert r[|r| - 2] == w;
  }

  /**
   * Completeness: a simple path q from v to t (written back from t) that avoids the
   * stack st is recorded by dfs(v, t) on that stack.
   */
  lemma {:induction false} WalkComplete(adj: seq<seq<int>>, st: seq<int>, q: seq<int>, t: int)
    requires IsAdjacency(adj) && Stack(|adj|, st)
    requires |q| > 0 && SimplePath(adj, q, q[|q| - 1], t) && Distinct(q + st)
    ensures q[|q| - 1] !in st && q + st in Walk(adj, st, q[|q| - 1], t)
    decreases |q|
  {
    var v := q[|q| - 1];
    assert (q + st)[|q| - 1] == v;
    forall k | 0 <= k < |st|
      ensures st[k] != v
    {
      assert (q + st)[|q| + k] == st[k];
    }
    if |q| > 1 {
      var w := q[|q| - 2];
      var init := q[..|q| - 1];
      assert init + ([v] + st) == q + st;
      assert q[0] != v by {
        assert q[0] == (q + st)[0];
      }
      assert v != t;
      assert Stack(|adj|, [v] + st) by {
        DistinctConcat([v], st);
      }
      assert SimplePath(adj, init, w, t);
      PushShrinks(|adj|, st, v);
      WalkComplete(adj, [v] + st, init, t);
      var i :| 0 <= i < |adj[v]| && adj[v][i] == w;
      BranchHas(adj, [v] + st, adj[v], t, i, q + st);
    } else {
      assert q == [v];
    }
  }

  /** From an empty stack, dfs(v, t) records exactly the simple paths from v to t. */
  lemma WalkExactly(adj: seq<seq<int>>, v: int, t: int, p: seq<int>)
    requires IsAdjacency(adj) && 0 <= v < |adj|
    ensures p in Walk(adj, [], v, t) <==> SimplePath(adj, p, v, t)
  {
    if p in Walk(adj, [], v, t) {
      WalkSound(adj, [], v, t, p);
      assert p[..|p|] == p;
    }
    if SimplePath(adj, p, v, t) {
      assert p + [] == p;
      WalkComplete(adj, [], p, t);
    }
  }

  // ---------------------------------------------------------------------------
  // The buckets of allPaths
  // ---------------------------------------------------------------------------

  /** No path repeats a vertex, so none is longer than the graph. */
  lemma {:induction false} StackLength(n: nat, s: seq<int>)
    requires Stack(n, s)
    ensures |s| <= n
  {
    var elems := set x | x in s;
    ElemsSize(s);
    BoundedSetSize(elems, n);
  }

  lemma {:induction false} ElemsSize(s: seq<int>)
    requires Distinct(s)
    ensures |set x | x in s| == |s|
  {
    if s != [] {
      var init := s[..|s| - 1];
      ElemsSize(init);
      assert (set x | x in s) == (set x | x in init) + {s[|s| - 1]};
    }
  }

  /**
   * allPaths.get(p.size() - 1).add(p).  Java throws when p is empty or longer than the
   * buckets; dfs never records such a path (Dfs proves it where it calls Put), and the
   * buckets are then left alone.
   */
  function Put(b: seq<seq<seq<int>>>, p: seq<int>): (r: seq<seq<seq<int>>>)
    ensures |r| == |b|
  {
    if 1 <= |p| <= |b| then b[|p| - 1 := b[|p| - 1] + [p]] else b
  }

  /** The buckets after recording ps in order. */
  function Stored(b: seq<seq<seq<int>>>, ps: seq<seq<int>>): (r: seq<seq<seq<int>>>)
    ensures |r| == |b|
  {
    if ps == [] then b else Put(Stored(b, ps[..|ps| - 1]), ps[|ps| - 1])
  }

  /** The paths of ps with k + 1 vertices, in order. */
  function OfLength(ps: seq<seq<int>>, k: int): seq<seq<int>>
  {
    if ps == [] then []
    else OfLength(ps[..|ps| - 1], k) + (if |ps[|ps| - 1]| == k + 1 then [ps[|ps| - 1]] else [])
  }

  /** n empty buckets. */
  function NoPaths(n: nat): (b: seq<seq<seq<int>>>)
    ensures |b| == n && forall k :: 0 <= k < n ==> b[k] == []
  {
    seq(n, _ => [])
  }

  /** Recording xs and then ys is recording xs + ys. */
  lemma {:induction false} StoredAppend(b: seq<seq<seq<int>>>, xs: seq<seq<int>>, ys: seq<seq<int>>)
    ensures Stored(b, xs + ys) == Stored(Stored(b, xs), ys)
    decreases |ys|
  {
    if ys == [] {
      assert xs + ys == xs;
    } else {
      var init := ys[..|ys| - 1];
      assert (xs + ys)[..|xs + ys| - 1] == xs + init;
      StoredAppend(b, xs, init);
    }
  }

  /** Bucket k gains exactly the recorded paths with k + 1 vertices, in order. */
  lemma {:induction false} StoredBuckets(b: seq<seq<seq<int>>>, ps: seq<seq<int>>, k: int)
    requires 0 <= k < |b|
    ensures Stored(b, ps)[k] == b[k] + OfLength(ps, k)
  {
    if ps != [] {
      StoredBuckets(b, ps[..|ps| - 1], k);
    }
  }

  lemma {:induction false} OfLengthHas(ps: seq<seq<int>>, k: int)
    ensures forall p :: p in OfLength(ps, k) <==> p in ps && |p| == k + 1
  {
    if ps != [] {
      OfLengthHas(ps[..|ps| - 1], k);
      assert ps == ps[..|ps| - 1] + [ps[|ps| - 1]];
    }
  }

  // ---------------------------------------------------------------------------
  // findPaths: every ordered pair of vertices
  // ---------------------------------------------------------------------------

  /** dfs(i, t) for t = 0 .. m - 1. */
  function Row(adj: seq<seq<int>>, i: int, m: nat): seq<seq<int>>
    requires IsAdjacency(adj) && 0 <= i < |adj|
  {
    if m == 0 then [] else Row(adj, i, m - 1) + Walk(adj, [], i, m - 1)
  }

  /** dfs(i, t) for i = 0 .. m - 1 and every t. */
  function Rows(adj: seq<seq<int>>, m: nat): seq<seq<int>>
    requires IsAdjacency(adj) && m <= |adj|
  {
    if m == 0 then [] else Rows(adj, m - 1) + Row(adj, m - 1, |adj|)
  }

  /** p is a simple path from i to a vertex below m. */
  ghost predicate PathTo(adj: seq<seq<int>>, p: seq<int>, i: int, m: nat)
  {
    exists t :: 0 <= t < m && SimplePath(adj, p, i, t)
  }

  /** p is a simple path from a vertex below m to any vertex. */
  ghost predicate PathFrom(adj: seq<seq<int>>, p: seq<int>, m: nat)
  {
    exists v :: 0 <= v < m && PathTo(adj, p, v, |adj|)
  }

  /** findPaths records the simple paths between all pairs, and only those. */
  lemma {:induction false} RowsExactly(adj: seq<seq<int>>, m: nat, p: seq<int>)
    requires IsAdjacency(adj) && m <= |adj|
    ensures p in Rows(adj, m) <==> PathFrom(adj, p, m)
  {
    if m > 0 {
      RowsExactly(adj, m - 1, p);
      RowExactly(adj, m - 1, |adj|, p);
      PathFromStep(adj, p, m);
    }
  }

  /** A path from a vertex below m starts below m - 1 or at m - 1. */
  lemma PathFromStep(adj: seq<seq<int>>, p: seq<int>, m: nat)
    requires 0 < m
    ensures PathFrom(adj, p, m) <==> PathFrom(adj, p, m - 1) || PathTo(adj, p, m - 1, |adj|)
  {
    if PathFrom(adj, p, m) {
      var v :| 0 <= v < m && PathTo(adj, p, v, |adj|);
      if v < m - 1 {
        assert PathFrom(adj, p, m - 1);
      }
    }
  }

  /** dfs from i to each t below m records exactly the simple paths from i to those t. */
  lemma {:induction false} RowExactly(adj: seq<seq<int>>, i: int, m: nat, p: seq<int>)
    requires IsAdjacency(adj) && 0 <= i < |adj|
    ensures p in Row(adj, i, m) <==> PathTo(adj, p, i, m)
  {
    if m > 0 {
      RowExactly(adj, i, m - 1, p);
      WalkExactly(adj, i, m - 1, p);
      if PathTo(adj, p, i, m) {
        var t :| 0 <= t < m && SimplePath(adj, p, i, t);
        if t < m - 1 {
          assert PathTo(adj, p, i, m - 1);
        }
      }
    }
  }

  // ---------------------------------------------------------------------------
  // The PathFinder object
  // ---------------------------------------------------------------------------

  class PathFinder {
    const onPath: array<bool>
    const graph: ListGraph.Graph
    /** The deque, top first. */
    var path: seq<int>
    var allPaths: seq<seq<seq<int>>>

    /** onPath marks exactly the vertices on the deque. */
    predicate Marks()
      reads this, onPath
    {
      Stack(onPath.Length, path) && |allPaths| == onPath.Length &&
      forall x :: 0 <= x < onPath.Length ==> (onPath[x] <==> x in path)
    }

    /** PathFinder(G): nothing on the path, one empty bucket per vertex of G. */
    constructor (g: ListGraph.Graph)
      requires g.Valid()
      ensures graph == g && fresh(onPath) && onPath.Length == g.numVertices
      ensures path == [] && allPaths == NoPaths(g.numVertices) && Marks()
    {
      onPath := new bool[g.numVertices](_ => false);
      graph := g;
      path := [];
      allPaths := NoPaths(g.numVertices);
    }

    /**
     * findPaths(g): dfs from every vertex to every vertex, records every simple path of
     * g into the bucket of its length, and leaves the path empty again.
     */
    method FindPaths(g: ListGraph.Graph)
      requires g.Valid() && g.numVertices <= onPath.Length && Marks() && path == []
      modifies this, onPath
      ensures Marks() && path == []
      ensures allPaths == Stored(old(allPaths), Rows(g.adj, g.numVertices))
    {
      var adj := g.adj;
      var n := g.numVertices;
      ghost var a0 := allPaths;
      var i := 0;
      while i < n
        invariant 0 <= i <= n && Marks() && path == [] && allPaths == Stored(a0, Rows(adj, i))
      {
        FindFrom(adj, i, n);
        StoredAppend(a0, Rows(adj, i), Row(adj, i, n));
        i := i + 1;
      }
    }

    /** The inner loop of findPaths: dfs(i, j) for every j. */
    method FindFrom(adj: seq<seq<int>>, i: int, n: nat)
      requires IsAdjacency(adj) && n == |adj| <= onPath.Length && 0 <= i < n && Marks() && path == []
      modifies this, onPath
      ensures Marks() && path == [] && allPaths == Stored(old(allPaths), Row(adj, i, n))
    {
      ghost var a0 := allPaths;
      var j := 0;
      while j < n
        invariant 0 <= j <= n && Marks() && path == [] && allPaths == Stored(a0, Row(adj, i, j))
      {
        Dfs(adj, i, j);
        StoredAppend(a0, Row(adj, i, j), Walk(adj, [], i, j));
        j := j + 1;
      }
    }

    /**
     * dfs(G, v, t): records, in order, the paths Walk gives for the current deque, and
     * restores the deque and the marks.
     */
    method Dfs(adj: seq<seq<int>>, v: int, t: int)
      requires IsAdjacency(adj) && |adj| <= onPath.Length && Marks()
      requires 0 <= v < |adj| && v !in path && Stack(|adj|, path)
      modifies this, onPath
      ensures Marks() && path == old(path) && onPath[..] == old(onPath[..])
      ensures allPaths == Stored(old(allPaths), Walk(adj, old(path), v, t))
      decreases Remaining(|adj|, path), 0
    {
      ghost var st := path;
      ghost var marks := onPath[..];
      path := [v] + path;
      onPath[v] := true;
      assert Stack(|adj|, path) by {
        DistinctConcat([v], st);
      }
      if v == t {
        StackLength(|adj|, path);
        assert 1 <= |path| <= |allPaths|;
        allPaths := Put(allPaths, path);
      } else {
        PushShrinks(|adj|, st, v);
        Explore(adj, adj[v], t);
      }
      path := path[1..];
      onPath[v] := false;
      assert path == st;
      assert forall x :: 0 <= x < onPath.Length ==> onPath[x] == marks[x];
    }

    /** The loop of dfs over the neighbours ws of the vertex on top of the deque. */
    method Explore(adj: seq<seq<int>>, ws: seq<int>, t: int)
      requires IsAdjacency(adj) && |adj| <= onPath.Length && Marks() && Stack(|adj|, path)
      requires forall i :: 0 <= i < |ws| ==> 0 <= ws[i] < |adj|
      modifies this, onPath
      ensures Marks() && path == old(path)
      ensures allPaths == Stored(old(allPaths), Branch(adj, path, ws, t))
      decreases Remaining(|adj|, path), 1
    {
      ghost var a0 := allPaths;
      var i := 0;
      while i < |ws|
        invariant 0 <= i <= |ws| && Marks() && path == old(path)
        invariant allPaths == Stored(a0, Branch(adj, path, ws[..i], t))
      {
        var w := ws[i];
        BranchPrefix(adj, path, ws, i, t);
        if !onPath[w] {
          Dfs(adj, w, t);
          StoredAppend(a0, Branch(adj, path, ws[..i], t), Walk(adj, path, w, t));
        } else {
          assert Branch(adj, path, ws[..i], t) + [] == Branch(adj, path, ws[..i], t);
        }
        i := i + 1;
      }
      assert ws[..i] == ws;
    }

    /**
     * findPathsOfLength(l) for l <= the graph's vertex count: bucket l - 1, which fails
     * for l < 1 and when the graph has grown past the buckets.  Longer lengths
     * (None here) are not part of this model.
     */
    method FindPathsOfLength(l: int) returns (r: Result<Option<seq<seq<int>>>>)
      ensures l <= graph.numVertices && 1 <= l <= |allPaths| ==> r == Ok(Some(allPaths[l - 1]))
      ensures l <= graph.numVertices && !(1 <= l <= |allPaths|) ==> r == Err(IndexOutOfBounds)
      ensures l > graph.numVertices ==> r == Ok(None)
    {
      if l <= graph.numVertices {
        if 1 <= l <= |allPaths| {
          return Ok(Some(allPaths[l - 1]));
        }
        return Err(IndexOutOfBounds);
      }
      return Ok(None);
    }
  }

  /**
   * After findPaths on a fresh finder, bucket l - 1 holds exactly the simple paths with
   * l vertices, between any two vertices.
   */
  lemma BucketHoldsPaths(adj: seq<seq<int>>, l: int, p: seq<int>)
    requires IsAdjacency(adj) && 1 <= l <= |adj|
    ensures p in Stored(NoPaths(|adj|), Rows(adj, |adj|))[l - 1] <==> |p| == l && PathFrom(adj, p, |adj|)
  {
    FreshBucket(NoPaths(|adj|), Rows(adj, |adj|), l - 1, p);
    RowsExactly(adj, |adj|, p);
  }

  /** Starting from empty buckets, bucket k ends with the recorded paths with k + 1 vertices. */
  lemma FreshBucket(empty: seq<seq<seq<int>>>, ps: seq<seq<int>>, k: int, p: seq<int>)
    requires 0 <= k < |empty| && empty[k] == []
    ensures p in Stored(empty, ps)[k] <==> p in ps && |p| == k + 1
  {
    StoredBuckets(empty, ps, k);
    assert Stored(empty, ps)[k] == OfLength(ps, k);
    OfLengthHas(ps, k);
  }

}
