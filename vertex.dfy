/**
 * A vertex of a graph, identified by its integer location
 * (src/io/github/ethankelly/graph/Vertex.java).
 * Equality, hashing and ordering all look at the location only, which is why the
 * graph modules store vertices as plain location integers.
 */
module Vertices {

  class Vertex {
    var location: int

    constructor (location: int)
      ensures this.location == location
    {
      this.location := location;
    }

    /** setLocation: only the location changes. */
    method SetLocation(newLocation: int)
      modifies this
      ensures location == newLocation
    {
      location := newLocation;
    }

    /** equals: the same object, or another vertex at the same location. */
    predicate Equals(that: Vertex)
      reads this, that
    {
      this == that || location == that.location
    }

    /** hashCode: the location itself. */
    function HashCode(): int
      reads this
    {
      location
    }

    /** compareTo: -1, 0 or +1 as this location is below, equal to or above that one. */
    function CompareTo(that: Vertex): (r: int)
      reads this, that
      ensures r == -1 || r == 0 || r == 1
      ensures r == -1 <==> location < that.location
      ensures r == 1 <==> location > that.location
    {
      if this == that then 0
      else if location < that.location then -1
      else if location > that.location then 1
      else 0
    }
  }

  /**
   * What the hash maps and sorts that hold vertices rely on: equals is an equivalence
   * that hashCode respects, and compareTo is 0 exactly on equal vertices, antisymmetric
   * and transitive.
   */
  lemma ComparableContract(u: Vertex, v: Vertex, w: Vertex)
    ensures u.Equals(u) && (u.Equals(v) ==> v.Equals(u)) && (u.Equals(v) && v.Equals(w) ==> u.Equals(w))
    ensures u.Equals(v) ==> u.HashCode() == v.HashCode()
    ensures u.CompareTo(v) == 0 <==> u.Equals(v)
    ensures u.CompareTo(v) == -v.CompareTo(u)
    ensures u.CompareTo(v) < 0 && v.CompareTo(w) < 0 ==> u.CompareTo(w) < 0
  {
  }
}
