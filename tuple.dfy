/**
 * src/io/github/ethankelly/model/Tuple.java: a tuple of vertices in states, kept sorted
 * by location.  The object's vertex list is re-sorted in place by add; the validity
 * checks, equality and ordering only read it.
 *
 * The Vertex class with a state that this file uses is not part of this model; it is
 * the VertexState value (value equality, ordered by location, hash code = location).
 * ModelParams.validStates is not part of this model either: isValidTuple takes it as
 * a predicate on the list of states.
 */
module ModelTuple {
  import opened Wrappers
  import opened VertexStates
  import Components

  // ---------------------------------------------------------------------------
  // locationsAreDifferent as written (finding)
  // ---------------------------------------------------------------------------

  /**
   * locationsAreDifferent as written: the double loop only rejects two entries with the
   * same location when indexOf gives them different positions, and indexOf finds the
   * FIRST equal entry.
   */
  predicate LocationsAreDifferentAsWritten(vs: seq<VertexState>)
  {
    !exists i, j :: 0 <= i < |vs| && 0 <= j < |vs| &&
      vs[i].location == vs[j].location && IndexOf(vs, vs[i]) != IndexOf(vs, vs[j])
  }

  /**
   * Two equal vertices at location 0 and one at location 1 (the sorted [0, 1, 0] of the
   * repository's test) pass as written, although two entries share a location.
   */
  lemma LocationsAsWrittenMissesRepeat()
    ensures LocationsAreDifferentAsWritten([VertexState('S', 0), VertexState('S', 0), VertexState('S', 1)])
    ensures !AreLocationsDifferent([VertexState('S', 0), VertexState('S', 0), VertexState('S', 1)])
  {
    var vs := [VertexState('S', 0), VertexState('S', 0), VertexState('S', 1)];
    assert IndexOf(vs, vs[0]) == 0 && IndexOf(vs, vs[1]) == 0;
    assert IndexOf(vs, vs[2]) == 2;
    assert vs[0].location == vs[1].location;
  }

  /** When no vertex occurs twice, the check as written is the intended one. */
  lemma LocationsAsWrittenOnDistinct(vs: seq<VertexState>)
    requires Distinct(vs)
    ensures LocationsAreDifferentAsWritten(vs) <==> AreLocationsDifferent(vs)
  {
    forall i, j | 0 <= i < |vs| && 0 <= j < |vs|
      ensures IndexOf(vs, vs[i]) == i && IndexOf(vs, vs[j]) == j
    {
      IndexOfDistinct(vs, i);
      IndexOfDistinct(vs, j);
    }
  }

  /** No vertex of the graph is adjacent to itself. */
  predicate LoopFree(E: seq<seq<bool>>)
    requires Components.IsMatrix(E)
  {
    forall v :: 0 <= v < |E| ==> !E[v][v]
  }

  /**
   * On a graph without loops, a sorted connected list has strictly increasing locations,
   * so the check as written and the intended one both accept it.
   */
  lemma LocationsAgreeWhenConnected(vs: seq<VertexState>, E: seq<seq<bool>>)
    requires Components.IsMatrix(E) && LoopFree(E)
    requires SortedByLocation(vs) && LocationsIn(vs, |E|) && VertexStates.AreAllConnected(vs, E)
    ensures AreLocationsDifferent(vs) && LocationsAreDifferentAsWritten(vs)
  {
    forall i, j | 0 <= i < j < |vs|
      ensures vs[i].location < vs[j].location
    {
      assert E[vs[i].location][vs[i + 1].location];
    }
    assert Distinct(vs);
    LocationsAsWrittenOnDistinct(vs);
  }

  /**
   * With a loop at vertex 0, the list [S0, S0] is connected and passes the check as
   * written, so isValidTuple as written accepts a repeated location there.
   */
  lemma LocationsAsWrittenPassesLoop()
    ensures var E := [[true]]; var vs := [VertexState('S', 0), VertexState('S', 0)];
      LocationsIn(vs, |E|) && VertexStates.AreAllConnected(vs, E) &&
      LocationsAreDifferentAsWritten(vs) && !AreLocationsDifferent(vs)
  {
    var vs := [VertexState('S', 0), VertexState('S', 0)];
    assert forall i :: 0 <= i < |vs| ==> vs[i] == vs[0];
    assert IndexOf(vs, vs[0]) == 0;
  }

  // ---------------------------------------------------------------------------
  // The distinct states of a tuple (the first loop of isValidTuple)
  // ---------------------------------------------------------------------------

  /** The states of vs, each once, in order of first appearance. */
  function StatesOf(vs: seq<VertexState>): (r: seq<char>)
    ensures Distinct(r)
    ensures forall c :: c in r <==> exists i :: 0 <= i < |vs| && vs[i].state == c
  {
    if vs == [] then []
    else
      var init := StatesOf(vs[..|vs| - 1]);
      var c := vs[|vs| - 1].state;
      assert forall i :: 0 <= i < |vs| - 1 ==> vs[..|vs| - 1][i] == vs[i];
      if c in init then init
      else
        DistinctConcat(init, [c]);
        init + [c]
  }

  // ---------------------------------------------------------------------------
  // Java's List.hashCode with an int accumulator
  // ---------------------------------------------------------------------------

  /** Reduce to the signed 32-bit range, as Java int arithmetic does. */
  function Int32(x: int): (r: int)
    ensures -0x8000_0000 <= r < 0x8000_0000
    ensures (r - x) % 0x1_0000_0000 == 0
  {
    var m := x % 0x1_0000_0000;
    if m >= 0x8000_0000 then m - 0x1_0000_0000 else m
  }

  /** h = 1; for each e: h = 31 * h + e.hashCode(), in int arithmetic. */
  function ListHash(vs: seq<VertexState>): (h: int)
    ensures -0x8000_0000 <= h < 0x8000_0000
  {
    if vs == [] then 1
    else Int32(31 * ListHash(vs[..|vs| - 1]) + vs[|vs| - 1].location)
  }

  // ---------------------------------------------------------------------------
  // The Tuple object
  // ---------------------------------------------------------------------------

  class Tuple {
    var vertices: seq<VertexState>
    /** Set by the list constructor only; the one-vertex constructor leaves it 0. */
    var length: int

    /** The vertex list stays sorted by location. */
    predicate Valid()
      reads this
    {
      SortedByLocation(vertices)
    }

    /** Tuple(Vertex v): a one-vertex list; `length` keeps its default 0. */
    constructor Single(v: VertexState)
      ensures vertices == [v] && length == 0 && Valid()
    {
      vertices := [v];
      length := 0;
    }

    /** Tuple(List<Vertex> tuple): sorts the list by location and records its length. */
    constructor (tuple: seq<VertexState>)
      ensures vertices == SortByLocation(tuple) && length == |tuple| && Valid()
      ensures multiset(vertices) == multiset(tuple)
    {
      SortPermutesAndSorts(tuple);
      vertices := SortByLocation(tuple);
      length := |tuple|;
    }

    /** size(): the number of vertices held. */
    function Size(): nat
      reads this
    {
      |vertices|
    }

    /** locationsAreDifferent as written: two positions are told apart by indexOf. */
    predicate LocationsAreDifferent()
      reads this
    {
      LocationsAreDifferentAsWritten(vertices)
    }

    /**
     * areAllConnected(graph): every vertex is a vertex of the graph, and consecutive
     * vertices are adjacent (graph.areAllConnected, which is not part of this model,
     * is taken to be VertexState.areAllConnected).
     */
    predicate AreAllConnected(E: seq<seq<bool>>)
      reads this
      requires Components.IsMatrix(E)
    {
      LocationsIn(vertices, |E|) && VertexStates.AreAllConnected(vertices, E)
    }

    /**
     * isValidTuple: collects the distinct states, then accepts a one-vertex tuple, and
     * otherwise requires distinct locations, a connected tuple and valid states.
     */
    method IsValidTuple(validStates: seq<char> -> bool, E: seq<seq<bool>>) returns (r: bool)
      requires Components.IsMatrix(E)
      ensures r <==> Size() == 1 || (LocationsAreDifferent() && AreAllConnected(E) && validStates(StatesOf(vertices)))
      ensures Valid() && LoopFree(E) ==>
        (r <==> Size() == 1 || (AreLocationsDifferent(vertices) && AreAllConnected(E) && validStates(StatesOf(vertices))))
    {
      var states: seq<char> := [];
      var i := 0;
      while i < |vertices|
        invariant 0 <= i <= |vertices| && states == StatesOf(vertices[..i])
      {
        assert vertices[..i + 1][..i] == vertices[..i];
        if vertices[i].state !in states {
          states := states + [vertices[i].state];
        }
        i := i + 1;
      }
      assert vertices[..i] == vertices;
      if |vertices| == 1 {
        return true;
      }
      if Valid() && LoopFree(E) && AreAllConnected(E) {
        LocationsAgreeWhenConnected(vertices, E);
      }
      return LocationsAreDifferent() && AreAllConnected(E) && validStates(states);
    }

    /** equals: the same vertex lists. */
    predicate Equals(o: Tuple)
      reads this, o
    {
      vertices == o.vertices
    }

    /** hashCode: the list hash of the vertices. */
    function HashCode(): (h: int)
      reads this
      ensures -0x8000_0000 <= h < 0x8000_0000
    {
      ListHash(vertices)
    }

    /** compareTo: negative when this tuple is larger, so larger tuples sort first. */
    function CompareTo(o: Tuple): (r: int)
      reads this, o
      ensures r < 0 <==> Size() > o.Size()
      ensures r > 0 <==> Size() < o.Size()
    {
      if o.Size() < Size() then -1 else if o.Size() > Size() then 1 else 0
    }

    /**
     * add as written: `copy` is built around the same list object, so after v is
     * inserted and the list re-sorted, the comparison sees the list against itself
     * and reports no change.
     */
    method AddAsWritten(v: VertexState) returns (changed: bool)
      requires Valid()
      modifies this
      ensures Valid() && vertices == SortByLocation(old(vertices) + [v]) && length == old(length)
      ensures !changed
    {
      var copy := vertices;
      SortPermutesAndSorts(vertices + [v]);
      vertices := SortByLocation(vertices + [v]);
      copy := vertices;
      changed := vertices != copy;
    }

    /** add, comparing against a copy of the list taken before the insertion. */
    method Add(v: VertexState) returns (changed: bool)
      requires Valid()
      modifies this
      ensures Valid() && vertices == SortByLocation(old(vertices) + [v]) && length == old(length)
      ensures multiset(vertices) == multiset(old(vertices)) + multiset{v}
      ensures changed <==> vertices != old(vertices)
      ensures changed
    {
      var copy := vertices;
      SortPermutesAndSorts(vertices + [v]);
      vertices := SortByLocation(vertices + [v]);
      assert |vertices| == |copy| + 1;
      changed := vertices != copy;
    }
  }

  /**
   * What Collections.sort and the hash maps keyed by tuples rely on: equals is an
   * equivalence that hashCode respects, and compareTo is antisymmetric and transitive,
   * with tied tuples ordered alike against every third one.
   */
  lemma ComparableContract(t: Tuple, o: Tuple, u: Tuple)
    ensures t.Equals(t) && (t.Equals(o) ==> o.Equals(t)) && (t.Equals(o) && o.Equals(u) ==> t.Equals(u))
    ensures t.Equals(o) ==> t.HashCode() == o.HashCode()
    ensures t.CompareTo(o) == -o.CompareTo(t)
    ensures t.CompareTo(o) < 0 && o.CompareTo(u) < 0 ==> t.CompareTo(u) < 0
    ensures t.CompareTo(o) == 0 ==> t.CompareTo(u) == o.CompareTo(u)
  {
  }

  /** Adding to a sorted list inserts v after the entries at or below its location. */
  lemma AddInserts(vs: seq<VertexState>, v: VertexState)
    requires SortedByLocation(vs)
    ensures SortByLocation(vs + [v]) == InsertByLocation(vs, v)
  {
    SortSorted(vs);
    assert (vs + [v])[..|vs|] == vs;
  }
}
