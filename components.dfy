/**
 * The depth-first search behind every getConnectedComponents/DFSUtil pair in the
 * repository (src/io/github/ethankelly/graph/Graph.java and
 * src/main/io/github/ethankelly/Graph.java).  The search steps from v to w when
 * E[v][w] holds and tries the candidates w = 0, 1, ..., n-1 in that order, so the
 * two graph classes pass E as "hasEdge" or as the raw adjacency matrix.
 *
 * DfsFrom/DfsLoop/ComponentsFrom are the specification (visited is a set);
 * Dfs/ConnectedComponents are the imperative search over a boolean array,
 * proved to produce exactly the same lists.
 */
module Components {
  import opened Wrappers

  /** E is an n x n relation. */
  predicate IsMatrix(E: seq<seq<bool>>)
  {
    forall v :: 0 <= v < |E| ==> |E[v]| == |E|
  }

  predicate Symmetric(E: seq<seq<bool>>)
    requires IsMatrix(E)
  {
    forall v, w :: 0 <= v < |E| && 0 <= w < |E| ==> E[v][w] == E[w][v]
  }

  /** p is a walk along E. */
  predicate IsWalk(E: seq<seq<bool>>, p: seq<int>)
    requires IsMatrix(E)
  {
    |p| > 0 && (forall k :: 0 <= k < |p| ==> 0 <= p[k] < |E|)
    && forall k :: 0 <= k < |p| - 1 ==> E[p[k]][p[k + 1]]
  }

  /** b can be reached from a by a walk along E. */
  ghost predicate Reaches(E: seq<seq<bool>>, a: int, b: int)
    requires IsMatrix(E)
  {
    exists p :: IsWalk(E, p) && p[0] == a && p[|p| - 1] == b
  }

  lemma ReachesStep(E: seq<seq<bool>>, v: int, i: int, xs: seq<int>)
    requires IsMatrix(E) && 0 <= v < |E| && 0 <= i < |E| && E[v][i]
    requires forall x :: x in xs ==> Reaches(E, i, x)
    ensures forall x :: x in xs ==> Reaches(E, v, x)
  {
    forall x | x in xs ensures Reaches(E, v, x) {
      var p :| IsWalk(E, p) && p[0] == i && p[|p| - 1] == x;
      var q := [v] + p;
      assert forall k :: 1 <= k < |q| ==> q[k] == p[k - 1];
      assert IsWalk(E, q);
    }
  }

  function Unvisited(n: nat, vis: set<int>): set<int>
  {
    set i | 0 <= i < n && i !in vis
  }

  /** Every successor of a visited vertex is visited. */
  predicate Closed(E: seq<seq<bool>>, vis: set<int>)
    requires IsMatrix(E)
  {
    forall x, w :: x in vis && 0 <= x < |E| && 0 <= w < |E| && E[x][w] ==> w in vis
  }

  /** DFSUtil(v): mark v visited, append it, then search from each unvisited successor. */
  function DfsFrom(E: seq<seq<bool>>, v: int, vis: set<int>): (r: (seq<int>, set<int>))
    requires IsMatrix(E) && 0 <= v < |E| && v !in vis
    ensures vis + {v} <= r.1
    ensures forall x :: x in r.1 ==> x in vis || 0 <= x < |E|
    ensures forall x :: x in r.0 <==> x in r.1 && x !in vis
    ensures Distinct(r.0) && |r.0| > 0 && r.0[0] == v
    ensures forall x, w :: x in r.1 && x !in vis && 0 <= w < |E| && E[x][w] ==> w in r.1
    ensures forall x :: x in r.0 ==> Reaches(E, v, x)
    decreases Unvisited(|E|, vis), 0
  {
    assert v in Unvisited(|E|, vis) && v !in Unvisited(|E|, vis + {v});
    var rest := DfsLoop(E, v, 0, vis + {v});
    assert IsWalk(E, [v]);
    ([v] + rest.0, rest.1)
  }

  /** The loop of DFSUtil(v) from candidate i onwards. */
  function DfsLoop(E: seq<seq<bool>>, v: int, i: nat, vis: set<int>): (r: (seq<int>, set<int>))
    requires IsMatrix(E) && 0 <= v < |E| && i <= |E|
    ensures vis <= r.1
    ensures forall x :: x in r.1 ==> x in vis || 0 <= x < |E|
    ensures forall x :: x in r.0 <==> x in r.1 && x !in vis
    ensures Distinct(r.0)
    ensures forall w :: i <= w < |E| && E[v][w] ==> w in r.1
    ensures forall x, w :: x in r.1 && x !in vis && 0 <= w < |E| && E[x][w] ==> w in r.1
    ensures forall x :: x in r.0 ==> Reaches(E, v, x)
    decreases Unvisited(|E|, vis), |E| - i + 1
  {
    if i == |E| then ([], vis)
    else if i !in vis && E[v][i] then
      var a := DfsFrom(E, i, vis);
      var b := DfsLoop(E, v, i + 1, a.1);
      DistinctConcat(a.0, b.0);
      ReachesStep(E, v, i, a.0);
      (a.0 + b.0, b.1)
    else
      DfsLoop(E, v, i + 1, vis)
  }

  /** The outer loop of getConnectedComponents from vertex v onwards. */
  function ComponentsFrom(E: seq<seq<bool>>, v: nat, vis: set<int>): (r: seq<seq<int>>)
    requires IsMatrix(E) && v <= |E|
    decreases |E| - v
  {
    if v == |E| then []
    else if v in vis then ComponentsFrom(E, v + 1, vis)
    else
      var a := DfsFrom(E, v, vis);
      [a.0] + ComponentsFrom(E, v + 1, a.1)
  }

  /** getConnectedComponents: the components, each in discovery order. */
  function ComponentsOf(E: seq<seq<bool>>): (r: seq<seq<int>>)
    requires IsMatrix(E)
    ensures forall k, m :: 0 <= k < |r| && 0 <= m < |r[k]| ==> 0 <= r[k][m] < |E|
  {
    ComponentsFromInRange(E, 0, {});
    ComponentsFrom(E, 0, {})
  }

  lemma ComponentsFromInRange(E: seq<seq<bool>>, v: nat, vis: set<int>)
    requires IsMatrix(E) && v <= |E|
    requires forall u :: 0 <= u < v ==> u in vis
    ensures forall k, m :: 0 <= k < |ComponentsFrom(E, v, vis)| && 0 <= m < |ComponentsFrom(E, v, vis)[k]| ==>
              0 <= ComponentsFrom(E, v, vis)[k][m] < |E|
  {
    var r := ComponentsFrom(E, v, vis);
    ComponentsFromPartition(E, v, vis);
    forall k, m | 0 <= k < |r| && 0 <= m < |r[k]| ensures 0 <= r[k][m] < |E| {
      InFlatten(r, r[k][m]);
    }
  }

  /** The vertices of the components from v on are exactly the unvisited ones, each once. */
  lemma {:induction false} ComponentsFromPartition(E: seq<seq<bool>>, v: nat, vis: set<int>)
    requires IsMatrix(E) && v <= |E|
    requires forall u :: 0 <= u < v ==> u in vis
    ensures Distinct(Flatten(ComponentsFrom(E, v, vis)))
    ensures forall x :: x in Flatten(ComponentsFrom(E, v, vis)) <==> 0 <= x < |E| && x !in vis
    ensures forall k :: 0 <= k < |ComponentsFrom(E, v, vis)| ==> ComponentsFrom(E, v, vis)[k] != []
    decreases |E| - v
  {
    var r := ComponentsFrom(E, v, vis);
    if v == |E| {
    } else if v in vis {
      ComponentsFromPartition(E, v + 1, vis);
    } else {
      var a := DfsFrom(E, v, vis);
      ComponentsFromPartition(E, v + 1, a.1);
      var rest := ComponentsFrom(E, v + 1, a.1);
      assert r == [a.0] + rest;
      assert ([a.0] + rest)[1..] == rest;
      assert Flatten(r) == a.0 + Flatten(rest);
      DistinctConcat(a.0, Flatten(rest));
      forall k | 0 <= k < |r| ensures r[k] != [] {
        if k > 0 { assert r[k] == rest[k - 1]; }
      }
    }
  }

  /** getConnectedComponents puts every vertex 0..n-1 in exactly one non-empty component. */
  lemma ComponentsPartition(E: seq<seq<bool>>)
    requires IsMatrix(E)
    ensures Distinct(Flatten(ComponentsOf(E)))
    ensures forall x :: x in Flatten(ComponentsOf(E)) <==> 0 <= x < |E|
    ensures forall k :: 0 <= k < |ComponentsOf(E)| ==> ComponentsOf(E)[k] != []
  {
    ComponentsFromPartition(E, 0, {});
  }

  /** For a symmetric relation no edge leaves a component. */
  lemma {:induction false} ComponentsFromClosed(E: seq<seq<bool>>, v: nat, vis: set<int>)
    requires IsMatrix(E) && Symmetric(E) && v <= |E| && Closed(E, vis)
    ensures forall k, x, w ::
              (0 <= k < |ComponentsFrom(E, v, vis)| && x in ComponentsFrom(E, v, vis)[k] && 0 <= x < |E| && 0 <= w < |E| && E[x][w])
              ==> w in ComponentsFrom(E, v, vis)[k]
    decreases |E| - v
  {
    var r := ComponentsFrom(E, v, vis);
    if v == |E| {
    } else if v in vis {
      ComponentsFromClosed(E, v + 1, vis);
    } else {
      var a := DfsFrom(E, v, vis);
      assert Closed(E, a.1);
      ComponentsFromClosed(E, v + 1, a.1);
      var rest := ComponentsFrom(E, v + 1, a.1);
      assert r == [a.0] + rest;
      forall k, x, w | 0 <= k < |r| && x in r[k] && 0 <= x < |E| && 0 <= w < |E| && E[x][w]
        ensures w in r[k]
      {
        if k == 0 {
          assert x in a.1 && x !in vis;
        } else {
          assert r[k] == rest[k - 1];
        }
      }
    }
  }

  lemma ComponentsClosed(E: seq<seq<bool>>)
    requires IsMatrix(E) && Symmetric(E)
    ensures forall k, x, w ::
              (0 <= k < |ComponentsOf(E)| && x in ComponentsOf(E)[k] && 0 <= x < |E| && 0 <= w < |E| && E[x][w])
              ==> w in ComponentsOf(E)[k]
  {
    ComponentsFromClosed(E, 0, {});
  }

  /** Every vertex of a component is reachable from the component's first vertex. */
  lemma {:induction false} ComponentsFromConnected(E: seq<seq<bool>>, v: nat, vis: set<int>)
    requires IsMatrix(E) && v <= |E|
    ensures forall k :: 0 <= k < |ComponentsFrom(E, v, vis)| ==>
              ComponentsFrom(E, v, vis)[k] != [] &&
              forall x :: x in ComponentsFrom(E, v, vis)[k] ==> Reaches(E, ComponentsFrom(E, v, vis)[k][0], x)
    decreases |E| - v
  {
    var r := ComponentsFrom(E, v, vis);
    if v == |E| {
    } else if v in vis {
      ComponentsFromConnected(E, v + 1, vis);
    } else {
      var a := DfsFrom(E, v, vis);
      ComponentsFromConnected(E, v + 1, a.1);
      var rest := ComponentsFrom(E, v + 1, a.1);
      assert r == [a.0] + rest;
      forall k | 0 <= k < |r|
        ensures r[k] != [] && forall x :: x in r[k] ==> Reaches(E, r[k][0], x)
      {
        if k > 0 { assert r[k] == rest[k - 1]; }
      }
    }
  }

  /**
   * For a symmetric relation the lists are exactly the connected components:
   * inside a list every vertex is reachable from its first one, and no edge leaves a list.
   */
  lemma ComponentsAreConnectedComponents(E: seq<seq<bool>>)
    requires IsMatrix(E) && Symmetric(E)
    ensures forall k :: 0 <= k < |ComponentsOf(E)| ==>
              ComponentsOf(E)[k] != [] &&
              forall x :: x in ComponentsOf(E)[k] ==> Reaches(E, ComponentsOf(E)[k][0], x)
    ensures forall k, x, w ::
              (0 <= k < |ComponentsOf(E)| && x in ComponentsOf(E)[k] && 0 <= x < |E| && 0 <= w < |E| && E[x][w])
              ==> w in ComponentsOf(E)[k]
  {
    ComponentsFromConnected(E, 0, {});
    ComponentsClosed(E);
  }

  /** A walk that starts inside a closed set never leaves it. */
  lemma {:induction false} ClosedHoldsWalk(E: seq<seq<bool>>, S: set<int>, p: seq<int>)
    requires IsMatrix(E) && Closed(E, S) && IsWalk(E, p) && p[0] in S
    ensures p[|p| - 1] in S
    decreases |p|
  {
    if |p| > 1 {
      assert E[p[0]][p[1]];
      var q := p[1..];
      assert forall k :: 0 <= k < |q| ==> q[k] == p[k + 1];
      assert IsWalk(E, q);
      ClosedHoldsWalk(E, S, q);
    }
  }

  /** Nothing outside a closed set is reachable from inside it. */
  lemma ClosedNotReached(E: seq<seq<bool>>, S: set<int>, a: int, b: int)
    requires IsMatrix(E) && Closed(E, S) && a in S && b !in S
    ensures !Reaches(E, a, b)
  {
    if Reaches(E, a, b) {
      var p :| IsWalk(E, p) && p[0] == a && p[|p| - 1] == b;
      ClosedHoldsWalk(E, S, p);
    }
  }

  lemma {:induction false} NoComponentsWhenAllVisited(E: seq<seq<bool>>, v: nat, vis: set<int>)
    requires IsMatrix(E) && v <= |E|
    requires forall u :: v <= u < |E| ==> u in vis
    ensures ComponentsFrom(E, v, vis) == []
    decreases |E| - v
  {
    if v < |E| {
      NoComponentsWhenAllVisited(E, v + 1, vis);
    }
  }

  /** getConnectedComponents().size() == 1 exactly when every vertex is reachable from vertex 0. */
  lemma SingleComponentIffConnected(E: seq<seq<bool>>)
    requires IsMatrix(E) && |E| > 0
    ensures |ComponentsOf(E)| == 1 <==> forall x :: 0 <= x < |E| ==> Reaches(E, 0, x)
  {
    var a := DfsFrom(E, 0, {});
    assert ComponentsOf(E) == [a.0] + ComponentsFrom(E, 1, a.1);
    if forall x :: 0 <= x < |E| ==> Reaches(E, 0, x) {
      assert Closed(E, a.1);
      forall u | 1 <= u < |E| ensures u in a.1 {
        assert Reaches(E, 0, u);
        var p :| IsWalk(E, p) && p[0] == 0 && p[|p| - 1] == u;
        ClosedHoldsWalk(E, a.1, p);
      }
      NoComponentsWhenAllVisited(E, 1, a.1);
    }
    if |ComponentsOf(E)| == 1 {
      ComponentsPartition(E);
      assert ComponentsFrom(E, 1, a.1) == [];
      assert Flatten(ComponentsOf(E)) == a.0 + Flatten([]) == a.0;
      forall x | 0 <= x < |E| ensures Reaches(E, 0, x) {
        assert x in a.0;
      }
    }
  }

  /** With at least two vertices, a vertex 0 without successors means more than one component. */
  lemma IsolatedZeroSplits(E: seq<seq<bool>>)
    requires IsMatrix(E) && |E| >= 2
    requires forall w :: 0 <= w < |E| ==> !E[0][w]
    ensures |ComponentsOf(E)| != 1
  {
    assert Closed(E, {0});
    ClosedNotReached(E, {0}, 0, 1);
    SingleComponentIffConnected(E);
  }

  lemma {:induction false} SkipVisited(E: seq<seq<bool>>, v: nat, w: nat, vis: set<int>)
    requires IsMatrix(E) && v <= w <= |E|
    requires forall u :: v <= u < w ==> u in vis
    ensures ComponentsFrom(E, v, vis) == ComponentsFrom(E, w, vis)
    decreases w - v
  {
    if v < w {
      SkipVisited(E, v + 1, w, vis);
    }
  }

  /** The search from v over an empty visited set finds exactly the closed set S when S is reachable from v. */
  lemma SearchFindsClosedSet(E: seq<seq<bool>>, v: int, vis: set<int>, S: set<int>)
    requires IsMatrix(E) && 0 <= v < |E| && v !in vis && v in S
    requires Closed(E, vis) && Closed(E, vis + S)
    requires forall x :: x in S ==> x !in vis && Reaches(E, v, x)
    ensures DfsFrom(E, v, vis).1 == vis + S
  {
    var r := DfsFrom(E, v, vis);
    assert Closed(E, r.1);
    forall x | x in S ensures x in r.1 {
      var p :| IsWalk(E, p) && p[0] == v && p[|p| - 1] == x;
      ClosedHoldsWalk(E, r.1, p);
    }
    forall x | x in r.1 && x !in vis ensures x in S {
      assert x in r.0;
      var p :| IsWalk(E, p) && p[0] == v && p[|p| - 1] == x;
      ClosedHoldsWalk(E, vis + S, p);
    }
  }

  /**
   * Two components: S holds vertex 0 and is closed and reachable from 0; every other
   * vertex is reachable from t, the least vertex outside S.
   */
  lemma TwoComponents(E: seq<seq<bool>>, S: set<int>, t: int)
    requires IsMatrix(E) && 0 < t < |E| && 0 in S && t !in S
    requires Closed(E, S) && forall x :: x in S ==> 0 <= x < |E| && Reaches(E, 0, x)
    requires forall u :: 0 <= u < t ==> u in S
    requires forall x :: 0 <= x < |E| && x !in S ==> Reaches(E, t, x)
    ensures |ComponentsOf(E)| == 2
    ensures forall x :: x in ComponentsOf(E)[0] <==> x in S
    ensures forall x :: x in ComponentsOf(E)[1] <==> 0 <= x < |E| && x !in S
  {
    assert Closed(E, {});
    SearchFindsClosedSet(E, 0, {}, S);
    var a := DfsFrom(E, 0, {});
    assert a.1 == S;
    SkipVisited(E, 1, t, S);
    var T := set x | 0 <= x < |E| && x !in S;
    assert Closed(E, S + T);
    SearchFindsClosedSet(E, t, S, T);
    var b := DfsFrom(E, t, S);
    NoComponentsWhenAllVisited(E, t + 1, b.1);
    assert ComponentsOf(E) == [a.0] + ComponentsFrom(E, 1, a.1);
    assert ComponentsFrom(E, t, S) == [b.0] + ComponentsFrom(E, t + 1, b.1);
  }

  ghost function Marked(visited: array<bool>): set<int>
    reads visited
  {
    set i | 0 <= i < visited.Length && visited[i]
  }

  /** DFSUtil(v, visited, component): the imperative search. */
  method Dfs(E: seq<seq<bool>>, v: int, visited: array<bool>) returns (found: seq<int>)
    requires IsMatrix(E) && visited.Length == |E| && 0 <= v < |E| && !visited[v]
    modifies visited
    ensures (found, Marked(visited)) == DfsFrom(E, v, old(Marked(visited)))
    decreases Unvisited(|E|, Marked(visited))
  {
    ghost var vis0 := Marked(visited);
    visited[v] := true;
    assert Marked(visited) == vis0 + {v};
    assert v in Unvisited(|E|, vis0) && v !in Unvisited(|E|, vis0 + {v});
    found := [v];
    var w := 0;
    while w < |E|
      invariant 0 <= w <= |E|
      invariant vis0 + {v} <= Marked(visited)
      invariant var rest := DfsLoop(E, v, w, Marked(visited));
                (found + rest.0, rest.1) == DfsFrom(E, v, vis0)
      decreases |E| - w
    {
      if !visited[w] && E[v][w] {
        ghost var before := Marked(visited);
        ghost var pre := found;
        assert Unvisited(|E|, before) <= Unvisited(|E|, vis0 + {v});
        var sub := Dfs(E, w, visited);
        found := found + sub;
        ghost var tail := DfsLoop(E, v, w + 1, Marked(visited));
        assert DfsLoop(E, v, w, before) == (sub + tail.0, tail.1);
        assert pre + (sub + tail.0) == found + tail.0;
      }
      w := w + 1;
    }
    assert DfsLoop(E, v, |E|, Marked(visited)) == ([], Marked(visited));
    assert found + [] == found;
    assert vis0 == old(Marked(visited));
  }

  /** getConnectedComponents: one Dfs per vertex not yet visited, in vertex order. */
  method ConnectedComponents(E: seq<seq<bool>>) returns (comps: seq<seq<int>>)
    requires IsMatrix(E)
    ensures comps == ComponentsOf(E)
  {
    var visited := new bool[|E|](_ => false);
    assert Marked(visited) == {};
    comps := [];
    var v := 0;
    while v < |E|
      invariant 0 <= v <= |E|
      invariant comps + ComponentsFrom(E, v, Marked(visited)) == ComponentsOf(E)
      decreases |E| - v
    {
      if !visited[v] {
        ghost var before := Marked(visited);
        var c := Dfs(E, v, visited);
        assert ComponentsFrom(E, v, before) == [c] + ComponentsFrom(E, v + 1, Marked(visited));
        assert comps + ([c] + ComponentsFrom(E, v + 1, Marked(visited)))
            == (comps + [c]) + ComponentsFrom(E, v + 1, Marked(visited));
        comps := comps + [c];
      }
      v := v + 1;
    }
  }
}
