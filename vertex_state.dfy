/**
 * A vertex in a compartmental state (src/io/github/ethankelly/graph/VertexState.java):
 * a state letter such as 'S' or 'I' and the vertex's location in the contact graph.
 * The tuple code (Tuples, RequiredTuples, model/Tuple, NecessaryEquations) builds its
 * tuples from these values, so the shared predicates and the location sort live here.
 *
 * A graph is passed as its hasEdge relation E (E[a][b] for locations a and b).
 */
module VertexStates {
  import opened Wrappers
  import Components

  datatype VertexState = VertexState(state: char, location: int)

  /** The locations of a list, in order. */
  function Locations(vs: seq<VertexState>): (ls: seq<int>)
    ensures |ls| == |vs| && forall i :: 0 <= i < |vs| ==> ls[i] == vs[i].location
  {
    seq(|vs|, i requires 0 <= i < |vs| => vs[i].location)
  }

  /** Every location names a vertex of an n-vertex graph. */
  predicate LocationsIn(vs: seq<VertexState>, n: int)
  {
    forall i :: 0 <= i < |vs| ==> 0 <= vs[i].location < n
  }

  // ---------------------------------------------------------------------------
  // areStatesDifferent
  // ---------------------------------------------------------------------------

  /** The inner test of the double loop: v and w differ, or closures are on and one of them is S. */
  predicate Differs(v: VertexState, w: VertexState, reqClosures: bool)
  {
    v.state != w.state || (reqClosures && (v.state == 'S' || w.state == 'S'))
  }

  /**
   * areStatesDifferent: a single vertex is always required; otherwise the double loop
   * sets the flag as soon as some pair (v, w) passes the inner test.
   */
  predicate AreStatesDifferent(toCheck: seq<VertexState>, reqClosures: bool)
  {
    |toCheck| == 1 ||
    exists i, j :: 0 <= i < |toCheck| && 0 <= j < |toCheck| && Differs(toCheck[i], toCheck[j], reqClosures)
  }

  /** All entries carry the same state. */
  predicate AllSameState(vs: seq<VertexState>)
  {
    forall i :: 0 <= i < |vs| ==> vs[i].state == vs[0].state
  }

  /** Some entry is susceptible. */
  predicate SomeSusceptible(vs: seq<VertexState>)
  {
    exists i :: 0 <= i < |vs| && vs[i].state == 'S'
  }

  /**
   * For two or more vertices: the states count as different exactly when they are not
   * all equal, or closures are on and some vertex is S.
   */
  lemma StatesDifferentIff(vs: seq<VertexState>, reqClosures: bool)
    requires |vs| != 1
    ensures AreStatesDifferent(vs, reqClosures) <==> !AllSameState(vs) || (reqClosures && SomeSusceptible(vs))
  {
    if !AllSameState(vs) {
      var i :| 0 <= i < |vs| && vs[i].state != vs[0].state;
      assert Differs(vs[i], vs[0], reqClosures);
    }
    if reqClosures && SomeSusceptible(vs) {
      var i :| 0 <= i < |vs| && vs[i].state == 'S';
      assert Differs(vs[i], vs[i], reqClosures);
    }
    if AreStatesDifferent(vs, reqClosures) {
      var i, j :| 0 <= i < |vs| && 0 <= j < |vs| && Differs(vs[i], vs[j], reqClosures);
      if vs[i].state != vs[j].state {
        assert vs[i].state != vs[0].state || vs[j].state != vs[0].state;
      }
    }
  }

  /** Without closures, an all-S tuple of two or more vertices is not required. */
  lemma AllSusceptibleRejected(vs: seq<VertexState>)
    requires |vs| >= 2 && forall i :: 0 <= i < |vs| ==> vs[i].state == 'S'
    ensures !AreStatesDifferent(vs, false)
    ensures AreStatesDifferent(vs, true)
  {
    StatesDifferentIff(vs, false);
    StatesDifferentIff(vs, true);
    assert vs[0].state == 'S';
  }

  // ---------------------------------------------------------------------------
  // areLocationsDifferent
  // ---------------------------------------------------------------------------

  /**
   * areLocationsDifferent: false as soon as two different entries share a location.
   * The Java test `v != w` compares objects, so two positions of the list count as
   * different entries.
   */
  predicate AreLocationsDifferent(vertices: seq<VertexState>)
  {
    !exists i, j :: 0 <= i < |vertices| && 0 <= j < |vertices| && i != j && vertices[i].location == vertices[j].location
  }

  /** The check accepts exactly the lists whose locations are pairwise distinct. */
  lemma LocationsDifferentIff(vs: seq<VertexState>)
    ensures AreLocationsDifferent(vs) <==> Distinct(Locations(vs))
  {
    var ls := Locations(vs);
    if !Distinct(ls) {
      var i, j :| 0 <= i < j < |ls| && ls[i] == ls[j];
      assert vs[i].location == vs[j].location;
    }
  }

  // ---------------------------------------------------------------------------
  // areAllConnected
  // ---------------------------------------------------------------------------

  /** areAllConnected: a single vertex passes; otherwise each consecutive pair must be adjacent. */
  predicate AreAllConnected(toCheck: seq<VertexState>, E: seq<seq<bool>>)
    requires Components.IsMatrix(E) && LocationsIn(toCheck, |E|)
  {
    |toCheck| == 1 || forall i :: 0 <= i < |toCheck| - 1 ==> E[toCheck[i].location][toCheck[i + 1].location]
  }

  /** A connected tuple lies in one connected piece: its first vertex reaches every other one. */
  lemma {:induction false} ConnectedTupleReaches(vs: seq<VertexState>, E: seq<seq<bool>>, k: int)
    requires Components.IsMatrix(E) && LocationsIn(vs, |E|) && AreAllConnected(vs, E)
    requires 0 <= k < |vs|
    ensures Components.Reaches(E, vs[0].location, vs[k].location)
  {
    var p := Locations(vs[..k + 1]);
    assert forall m :: 0 <= m < |p| ==> p[m] == vs[m].location;
    assert Components.IsWalk(E, p);
  }

  // ---------------------------------------------------------------------------
  // Collections.sort by location (a stable sort)
  // ---------------------------------------------------------------------------

  /** Locations never decrease along the list. */
  predicate SortedByLocation(vs: seq<VertexState>)
  {
    forall i, j :: 0 <= i < j < |vs| ==> vs[i].location <= vs[j].location
  }

  /** Insert x after every entry whose location is at most x's (the stable position). */
  function InsertByLocation(s: seq<VertexState>, x: VertexState): (r: seq<VertexState>)
    ensures |r| == |s| + 1
  {
    if s == [] || s[|s| - 1].location <= x.location then
      s + [x]
    else
      InsertByLocation(s[..|s| - 1], x) + [s[|s| - 1]]
  }

  /** Inserting adds exactly x. */
  lemma {:induction false} InsertPermutes(s: seq<VertexState>, x: VertexState)
    ensures multiset(InsertByLocation(s, x)) == multiset(s) + multiset{x}
  {
    if !(s == [] || s[|s| - 1].location <= x.location) {
      InsertPermutes(s[..|s| - 1], x);
      assert s == s[..|s| - 1] + [s[|s| - 1]];
    }
  }

  /** Inserting into a sorted list keeps it sorted. */
  lemma {:induction false} InsertSorted(s: seq<VertexState>, x: VertexState)
    requires SortedByLocation(s)
    ensures SortedByLocation(InsertByLocation(s, x))
  {
    if !(s == [] || s[|s| - 1].location <= x.location) {
      var init := s[..|s| - 1];
      InsertSorted(init, x);
      InsertPermutes(init, x);
      var r := InsertByLocation(init, x);
      assert s == init + [s[|s| - 1]];
      forall k | 0 <= k < |r|
        ensures r[k].location <= s[|s| - 1].location
      {
        assert r[k] in multiset(r);
        assert r[k] in multiset(init) + multiset{x};
      }
    }
  }

  /** Collections.sort(list) for vertices compared by location. */
  function SortByLocation(vs: seq<VertexState>): (r: seq<VertexState>)
    ensures |r| == |vs|
  {
    if vs == [] then []
    else InsertByLocation(SortByLocation(vs[..|vs| - 1]), vs[|vs| - 1])
  }

  /** The sort is a permutation of its input and leaves it in location order. */
  lemma {:induction false} SortPermutesAndSorts(vs: seq<VertexState>)
    ensures multiset(SortByLocation(vs)) == multiset(vs)
    ensures SortedByLocation(SortByLocation(vs))
  {
    if vs != [] {
      var init := vs[..|vs| - 1];
      SortPermutesAndSorts(init);
      InsertPermutes(SortByLocation(init), vs[|vs| - 1]);
      InsertSorted(SortByLocation(init), vs[|vs| - 1]);
      assert vs == init + [vs[|vs| - 1]];
    }
  }

  /** Sorting a list that is already in location order changes nothing. */
  lemma {:induction false} SortSorted(vs: seq<VertexState>)
    requires SortedByLocation(vs)
    ensures SortByLocation(vs) == vs
  {
    if vs != [] {
      var init := vs[..|vs| - 1];
      assert SortedByLocation(init);
      SortSorted(init);
      assert vs == init + [vs[|vs| - 1]];
    }
  }

  // ---------------------------------------------------------------------------
  // The singles: one entry per state per vertex
  // ---------------------------------------------------------------------------

  /** One entry per state per vertex, state-major: (c0, v0), (c0, v1), ..., (c1, v0), ... */
  function SinglesOver(cs: seq<char>, vs: seq<int>): (r: seq<VertexState>)
    ensures |r| == |cs| * |vs|
  {
    if cs == [] then []
    else seq(|vs|, k requires 0 <= k < |vs| => VertexState(cs[0], vs[k])) + SinglesOver(cs[1..], vs)
  }

  /** Position i * |vs| + k holds state cs[i] at vertex vs[k]. */
  lemma {:induction false} SinglesOverAt(cs: seq<char>, vs: seq<int>, i: int, k: int)
    requires 0 <= i < |cs| && 0 <= k < |vs|
    ensures i * |vs| + k < |SinglesOver(cs, vs)|
    ensures SinglesOver(cs, vs)[i * |vs| + k] == VertexState(cs[i], vs[k])
  {
    if i > 0 {
      SinglesOverAt(cs[1..], vs, i - 1, k);
      assert i * |vs| + k == |vs| + ((i - 1) * |vs| + k);
    }
  }

  /** The singles are exactly the (state, vertex) pairs drawn from the two lists. */
  lemma {:induction false} InSinglesOver(cs: seq<char>, vs: seq<int>, x: VertexState)
    ensures x in SinglesOver(cs, vs) <==> x.state in cs && x.location in vs
  {
    if cs != [] {
      InSinglesOver(cs[1..], vs, x);
      var row := seq(|vs|, k requires 0 <= k < |vs| => VertexState(cs[0], vs[k]));
      assert SinglesOver(cs, vs) == row + SinglesOver(cs[1..], vs);
      if x.state == cs[0] && x.location in vs {
        var k :| 0 <= k < |vs| && vs[k] == x.location;
        assert row[k] == x;
      }
      assert cs == [cs[0]] + cs[1..];
    }
  }

  lemma {:induction false} SinglesOverAppend(cs: seq<char>, c: char, vs: seq<int>)
    ensures SinglesOver(cs + [c], vs) == SinglesOver(cs, vs) + seq(|vs|, k requires 0 <= k < |vs| => VertexState(c, vs[k]))
  {
    if cs != [] {
      assert (cs + [c])[1..] == cs[1..] + [c];
      SinglesOverAppend(cs[1..], c, vs);
    }
  }

  /**
   * The double loop `for (char c : states) for (int v : vertices) add(c, v)` shared by
   * the three findSingles methods.
   */
  method CollectSingles(cs: seq<char>, vs: seq<int>) returns (r: seq<VertexState>)
    ensures r == SinglesOver(cs, vs)
  {
    r := [];
    var i := 0;
    while i < |cs|
      invariant 0 <= i <= |cs| && r == SinglesOver(cs[..i], vs)
    {
      var j := 0;
      while j < |vs|
        invariant 0 <= j <= |vs|
        invariant r == SinglesOver(cs[..i], vs) + seq(j, k requires 0 <= k < j => VertexState(cs[i], vs[k]))
      {
        r := r + [VertexState(cs[i], vs[j])];
        j := j + 1;
      }
      SinglesOverAppend(cs[..i], cs[i], vs);
      assert cs[..i + 1] == cs[..i] + [cs[i]];
      i := i + 1;
    }
    assert cs[..i] == cs;
  }
}
