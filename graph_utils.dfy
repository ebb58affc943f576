/**
 * src/io/github/ethankelly/graph/GraphUtils.java: the walk-count table (countWalks), every
 * ordering of a list (getListPerm) and the power set of a list (powerSet).
 *
 * countWalks works on a graph with directed edges whose class is not part of this model:
 * here it is the directed adjacency matrix (hasDirectedEdge(i, j) is edges[i][j]) and
 * the list of walk-count tables the graph keeps (numWalks).  Counts are unbounded
 * integers where Java has Integer.
 */
module GraphUtils {
  import opened Wrappers
  import opened CompartmentModel

  // ---------------------------------------------------------------------------
  // countWalks
  // ---------------------------------------------------------------------------

  /** Sum over a < m of walks[a][j], for the a with an edge i -> a. */
  function SumOver(edges: seq<seq<bool>>, prev: seq<seq<int>>, i: int, j: int, m: nat): int
    requires IsSquare(edges, |edges|) && IsSquare(prev, |edges|)
    requires 0 <= i < |edges| && 0 <= j < |edges| && m <= |edges|
  {
    if m == 0 then 0
    else SumOver(edges, prev, i, j, m - 1) + (if edges[i][m - 1] then prev[m - 1][j] else 0)
  }

  /** Cell [i][j] of the table for e edges, from the table for e - 1 edges. */
  function Cell(edges: seq<seq<bool>>, e: int, prev: seq<seq<int>>, i: int, j: int): int
    requires IsSquare(edges, |edges|) && (e > 1 ==> IsSquare(prev, |edges|))
    requires 0 <= i < |edges| && 0 <= j < |edges|
  {
    if e == 0 then (if i == j then 1 else 0)
    else if e == 1 then (if edges[i][j] then 1 else 0)
    else if e > 1 then SumOver(edges, prev, i, j, |edges|)
    else 0
  }

  /** The table countWalks stores for e edges. */
  function Level(edges: seq<seq<bool>>, e: int, prev: seq<seq<int>>): (r: seq<seq<int>>)
    requires IsSquare(edges, |edges|) && (e > 1 ==> IsSquare(prev, |edges|))
    ensures IsSquare(r, |edges|)
    ensures forall i, j :: 0 <= i < |edges| && 0 <= j < |edges| ==> r[i][j] == Cell(edges, e, prev, i, j)
  {
    seq(|edges|, i requires 0 <= i < |edges| =>
      seq(|edges|, j requires 0 <= j < |edges| => Cell(edges, e, prev, i, j)))
  }

  /** The number of walks with e edges, from every vertex to every vertex. */
  function Walks(edges: seq<seq<bool>>, e: nat): (r: seq<seq<int>>)
    requires IsSquare(edges, |edges|)
    ensures IsSquare(r, |edges|)
  {
    if e <= 1 then Level(edges, e, []) else Level(edges, e, Walks(edges, e - 1))
  }

  /** w is a walk from i to j along directed edges. */
  predicate IsWalk(edges: seq<seq<bool>>, w: seq<int>, i: int, j: int)
    requires IsSquare(edges, |edges|)
  {
    |w| > 0 && w[0] == i && w[|w| - 1] == j &&
    (forall k :: 0 <= k < |w| ==> 0 <= w[k] < |edges|) &&
    forall k :: 0 <= k < |w| - 1 ==> edges[w[k]][w[k + 1]]
  }

  /** With non-negative entries, the sum is positive exactly when some term is. */
  lemma {:induction false} SumPositive(edges: seq<seq<bool>>, prev: seq<seq<int>>, i: int, j: int, m: nat)
    requires IsSquare(edges, |edges|) && IsSquare(prev, |edges|)
    requires 0 <= i < |edges| && 0 <= j < |edges| && m <= |edges|
    requires forall a, b :: 0 <= a < |edges| && 0 <= b < |edges| ==> prev[a][b] >= 0
    ensures SumOver(edges, prev, i, j, m) >= 0
    ensures SumOver(edges, prev, i, j, m) > 0 <==> exists a :: 0 <= a < m && edges[i][a] && prev[a][j] > 0
  {
    if m > 0 {
      SumPositive(edges, prev, i, j, m - 1);
    }
  }

  lemma {:induction false} WalksNonNegative(edges: seq<seq<bool>>, e: nat)
    requires IsSquare(edges, |edges|)
    ensures forall i, j :: 0 <= i < |edges| && 0 <= j < |edges| ==> Walks(edges, e)[i][j] >= 0
  {
    if e > 1 {
      WalksNonNegative(edges, e - 1);
      forall i, j | 0 <= i < |edges| && 0 <= j < |edges|
        ensures Walks(edges, e)[i][j] >= 0
      {
        SumPositive(edges, Walks(edges, e - 1), i, j, |edges|);
      }
    }
  }

  /** The count for e edges is positive exactly when there is a walk with e edges. */
  lemma {:induction false} WalksCountWalks(edges: seq<seq<bool>>, e: nat, i: int, j: int)
    requires IsSquare(edges, |edges|) && 0 <= i < |edges| && 0 <= j < |edges|
    ensures Walks(edges, e)[i][j] > 0 <==> exists w :: |w| == e + 1 && IsWalk(edges, w, i, j)
  {
    if e == 0 {
      if i == j {
        assert IsWalk(edges, [i], i, j);
      }
    } else if e == 1 {
      if edges[i][j] {
        assert IsWalk(edges, [i, j], i, j);
      }
    } else {
      var prev := Walks(edges, e - 1);
      WalksNonNegative(edges, e - 1);
      SumPositive(edges, prev, i, j, |edges|);
      if Walks(edges, e)[i][j] > 0 {
        var a :| 0 <= a < |edges| && edges[i][a] && prev[a][j] > 0;
        WalksCountWalks(edges, e - 1, a, j);
        WalkExtend(edges, e, i, a, j);
      }
      if exists w :: |w| == e + 1 && IsWalk(edges, w, i, j) {
        var w :| |w| == e + 1 && IsWalk(edges, w, i, j);
        WalkTail(edges, w, i, j);
        WalksCountWalks(edges, e - 1, w[1], j);
      }
    }
  }

  /** An edge i -> a in front of a walk from a gives a walk from i. */
  lemma WalkExtend(edges: seq<seq<bool>>, e: nat, i: int, a: int, j: int)
    requires IsSquare(edges, |edges|) && 0 <= i < |edges| && 0 <= a < |edges| && edges[i][a]
    requires exists w :: |w| == e && IsWalk(edges, w, a, j)
    ensures exists w :: |w| == e + 1 && IsWalk(edges, w, i, j)
  {
    var w :| |w| == e && IsWalk(edges, w, a, j);
    assert IsWalk(edges, [i] + w, i, j);
  }

  /** A walk with at least one edge is an edge followed by a walk. */
  lemma WalkTail(edges: seq<seq<bool>>, w: seq<int>, i: int, j: int)
    requires IsSquare(edges, |edges|) && |w| >= 2 && IsWalk(edges, w, i, j)
    ensures 0 <= w[1] < |edges| && edges[i][w[1]] && IsWalk(edges, w[1..], w[1], j)
  {
  }

  /** The table a level is computed from: the level below, which only sums use. */
  function Below(after: seq<seq<seq<int>>>, d: int): seq<seq<int>>
  {
    if 1 < d <= |after| then after[d - 1] else []
  }

  /** The stored tables extend old: a level not stored before is computed from the one below. */
  predicate Extends(edges: seq<seq<bool>>, before: seq<seq<seq<int>>>, after: seq<seq<seq<int>>>, from: nat)
    requires IsSquare(edges, |edges|)
    requires forall d :: 0 <= d < |after| ==> IsSquare(after[d], |edges|)
  {
    forall d :: from <= d < |after| ==>
      after[d] == if d < |before| then before[d] else Level(edges, d, Below(after, d))
  }

  /** Replacing table 0 leaves every higher level extending the stored tables as before. */
  lemma ResetKeeps(edges: seq<seq<bool>>, before: seq<seq<seq<int>>>, full: seq<seq<seq<int>>>,
                   after: seq<seq<seq<int>>>)
    requires IsSquare(edges, |edges|) && |full| > 0
    requires forall d :: 0 <= d < |full| ==> IsSquare(full[d], |edges|)
    requires Extends(edges, before, full, 0)
    requires after == full[0 := Filled(|edges|, 0)]
    ensures forall d :: 0 <= d < |after| ==> IsSquare(after[d], |edges|)
    ensures Extends(edges, before, after, 1)
  {
    forall d | 1 <= d < |after| ensures after[d] == full[d] && Below(after, d) == Below(full, d) {
    }
  }

  /** The numWalks list of a graph with the given directed edges. */
  class WalkCache {
    const edges: seq<seq<bool>>
    var numWalks: seq<seq<seq<int>>>

    /** Every stored table is n x n. */
    predicate Valid()
      reads this
    {
      IsSquare(edges, |edges|) && forall d :: 0 <= d < |numWalks| ==> IsSquare(numWalks[d], |edges|)
    }

    constructor (edges: seq<seq<bool>>)
      requires IsSquare(edges, |edges|)
      ensures Valid() && this.edges == edges && numWalks == []
    {
      this.edges := edges;
      numWalks := [];
    }

    /**
     * countWalks(graph, k): computes the tables for 0 .. k edges that are not stored yet
     * and appends them; then replaces table 0 by zeros, which fails when nothing is stored.
     */
    method CountWalks(k: int) returns (r: Result<()>)
      requires Valid()
      modifies this
      ensures Valid()
      ensures |old(numWalks)| == 0 && k < 0 ==> r == Err(IndexOutOfBounds) && numWalks == []
      ensures !(|old(numWalks)| == 0 && k < 0) ==>
                r == Ok(()) && |numWalks| == (if k + 1 > |old(numWalks)| then k + 1 else |old(numWalks)|) &&
                numWalks[0] == Filled(|edges|, 0) && Extends(edges, old(numWalks), numWalks, 1)
    {
      ComputeUpTo(k);
      if |numWalks| == 0 {
        return Err(IndexOutOfBounds);
      }
      ghost var full := numWalks;
      numWalks := numWalks[0 := Filled(|edges|, 0)];
      ResetKeeps(edges, old(numWalks), full, numWalks);
      return Ok(());
    }

    /** The loop of countWalks: each level from 0 to k not stored yet is computed and appended. */
    method ComputeUpTo(k: int)
      requires Valid()
      modifies this
      ensures Valid()
      ensures |numWalks| == (if k + 1 > |old(numWalks)| then k + 1 else |old(numWalks)|)
      ensures Extends(edges, old(numWalks), numWalks, 0)
    {
      ghost var before := numWalks;
      var e := 0;
      while e <= k
        invariant Valid() && 0 <= e <= (if k + 1 > 0 then k + 1 else 0)
        invariant |numWalks| == if e > |before| then e else |before|
        invariant Extends(edges, before, numWalks, 0)
      {
        if |numWalks| <= e {
          var count := Table(e, Below(numWalks, e));
          numWalks := numWalks + [count];
        }
        e := e + 1;
      }
      assert e == if k + 1 > 0 then k + 1 else 0;
    }

    /** The table for e edges: the loops over i, j and a. */
    method Table(e: int, prev: seq<seq<int>>) returns (count: seq<seq<int>>)
      requires Valid() && (e > 1 ==> IsSquare(prev, |edges|))
      ensures count == Level(edges, e, prev)
    {
      var n := |edges|;
      count := [];
      var i := 0;
      while i < n
        invariant 0 <= i <= n && |count| == i
        invariant forall a :: 0 <= a < i ==> count[a] == Level(edges, e, prev)[a]
      {
        var row := [];
        var j := 0;
        while j < n
          invariant 0 <= j <= n && |row| == j
          invariant forall b :: 0 <= b < j ==> row[b] == Cell(edges, e, prev, i, b)
        {
          var c := CellValue(e, prev, i, j);
          row := row + [c];
          j := j + 1;
        }
        count := count + [row];
        i := i + 1;
      }
    }

    /** One cell: 0, then the base cases, then the sum over the neighbours a of i. */
    method CellValue(e: int, prev: seq<seq<int>>, i: int, j: int) returns (c: int)
      requires Valid() && (e > 1 ==> IsSquare(prev, |edges|))
      requires 0 <= i < |edges| && 0 <= j < |edges|
      ensures c == Cell(edges, e, prev, i, j)
    {
      c := 0;
      if e == 0 && i == j {
        c := 1;
      }
      if e == 1 && edges[i][j] {
        c := 1;
      }
      if e > 1 {
        var a := 0;
        while a < |edges|
          invariant 0 <= a <= |edges| && c == SumOver(edges, prev, i, j, a)
        {
          if edges[i][a] {
            c := c + prev[a][j];
          }
          a := a + 1;
        }
      }
    }
  }

  /** On an empty cache, countWalks(k) stores the walk counts for 1 .. k edges. */
  lemma {:induction false} FreshCacheHoldsWalks(edges: seq<seq<bool>>, after: seq<seq<seq<int>>>, e: nat)
    requires IsSquare(edges, |edges|)
    requires forall d :: 0 <= d < |after| ==> IsSquare(after[d], |edges|)
    requires Extends(edges, [], after, 1) && 1 <= e < |after|
    ensures after[e] == Walks(edges, e)
  {
    if e > 1 {
      FreshCacheHoldsWalks(edges, after, e - 1);
    }
  }

  // ---------------------------------------------------------------------------
  // getListPerm
  // ---------------------------------------------------------------------------

  /** p with x inserted at each position 0 .. |p|, in that order. */
  function Insertions<T>(p: seq<T>, x: T): (r: seq<seq<T>>)
    ensures |r| == |p| + 1 && forall i :: 0 <= i <= |p| ==> r[i] == p[..i] + [x] + p[i..]
  {
    seq(|p| + 1, i requires 0 <= i <= |p| => p[..i] + [x] + p[i..])
  }

  /** The insertions of x into each of ps, in order. */
  function InsertAll<T>(ps: seq<seq<T>>, x: T): seq<seq<T>>
  {
    if ps == [] then [] else InsertAll(ps[..|ps| - 1], x) + Insertions(ps[|ps| - 1], x)
  }

  /** The orderings getListPerm lists: the first element inserted into each ordering of the rest. */
  function Perms<T>(xs: seq<T>): seq<seq<T>>
  {
    if xs == [] then [[]] else InsertAll(Perms(xs[1..]), xs[0])
  }

  function Fact(n: nat): nat
  {
    if n == 0 then 1 else n * Fact(n - 1)
  }

  lemma {:induction false} InsertAllMember<T>(ps: seq<seq<T>>, x: T, r: seq<T>)
    ensures r in InsertAll(ps, x) <==> exists k, i :: 0 <= k < |ps| && 0 <= i <= |ps[k]| && r == ps[k][..i] + [x] + ps[k][i..]
  {
    if ps != [] {
      var init := ps[..|ps| - 1];
      InsertAllMember(init, x, r);
      if exists k, i :: 0 <= k < |ps| && 0 <= i <= |ps[k]| && r == ps[k][..i] + [x] + ps[k][i..] {
        var k, i :| 0 <= k < |ps| && 0 <= i <= |ps[k]| && r == ps[k][..i] + [x] + ps[k][i..];
        if k < |ps| - 1 {
          assert init[k] == ps[k];
        } else {
          assert r == Insertions(ps[|ps| - 1], x)[i];
        }
      }
      if r in InsertAll(init, x) {
        var k, i :| 0 <= k < |init| && 0 <= i <= |init[k]| && r == init[k][..i] + [x] + init[k][i..];
        assert ps[k] == init[k];
      }
    }
  }

  lemma {:induction false} InsertAllLength<T>(ps: seq<seq<T>>, x: T, m: nat)
    requires forall k :: 0 <= k < |ps| ==> |ps[k]| == m
    ensures |InsertAll(ps, x)| == |ps| * (m + 1)
  {
    if ps != [] {
      var init := ps[..|ps| - 1];
      assert forall k :: 0 <= k < |init| ==> init[k] == ps[k];
      InsertAllLength(init, x, m);
      assert |Insertions(ps[|ps| - 1], x)| == m + 1;
      Distribute(|init|, m + 1);
    }
  }

  lemma Distribute(a: nat, b: nat)
    ensures (a + 1) * b == a * b + b
  {
  }

  /** Inserting x adds one x to the elements. */
  lemma InsertedMultiset<T>(p: seq<T>, x: T, i: int)
    requires 0 <= i <= |p|
    ensures multiset(p[..i] + [x] + p[i..]) == multiset([x]) + multiset(p)
  {
    assert p == p[..i] + p[i..];
  }

  /** Each listed ordering holds the same elements as xs. */
  lemma {:induction false} PermsSound<T>(xs: seq<T>, r: seq<T>)
    requires r in Perms(xs)
    ensures multiset(r) == multiset(xs)
  {
    if xs != [] {
      InsertAllMember(Perms(xs[1..]), xs[0], r);
      var k, i :| 0 <= k < |Perms(xs[1..])| && 0 <= i <= |Perms(xs[1..])[k]| &&
                  r == Perms(xs[1..])[k][..i] + [xs[0]] + Perms(xs[1..])[k][i..];
      var p := Perms(xs[1..])[k];
      PermsSound(xs[1..], p);
      InsertedMultiset(p, xs[0], i);
      assert xs == [xs[0]] + xs[1..];
      assert multiset(xs) == multiset([xs[0]]) + multiset(xs[1..]);
    }
  }

  /** Every ordering of xs is listed. */
  lemma {:induction false} PermsComplete<T>(xs: seq<T>, r: seq<T>)
    requires multiset(r) == multiset(xs)
    ensures r in Perms(xs)
  {
    if xs == [] {
      assert |r| == |multiset(r)| == 0;
    } else {
      var p, i := TakeOut(xs, r);
      PermsComplete(xs[1..], p);
      var ps := Perms(xs[1..]);
      var k :| 0 <= k < |ps| && ps[k] == p;
      InsertAllMember(ps, xs[0], r);
    }
  }

  /** An ordering of xs is the first element inserted into an ordering of the rest. */
  lemma TakeOut<T>(xs: seq<T>, r: seq<T>) returns (p: seq<T>, i: int)
    requires xs != [] && multiset(r) == multiset(xs)
    ensures 0 <= i <= |p| && r == p[..i] + [xs[0]] + p[i..] && multiset(p) == multiset(xs[1..])
  {
    var x := xs[0];
    assert xs == [x] + xs[1..];
    assert x in multiset(r);
    i :| 0 <= i < |r| && r[i] == x;
    p := r[..i] + r[i + 1..];
    assert p[..i] == r[..i] && p[i..] == r[i + 1..];
    assert r == p[..i] + [x] + p[i..];
    InsertedMultiset(p, x, i);
    assert multiset(r) == multiset([x]) + multiset(p);
    calc {
      multiset(p);
      { assert (multiset([x]) + multiset(p)) - multiset([x]) == multiset(p); }
      (multiset([x]) + multiset(p)) - multiset([x]);
      multiset(r) - multiset([x]);
      multiset(xs) - multiset([x]);
      (multiset([x]) + multiset(xs[1..])) - multiset([x]);
      { assert (multiset([x]) + multiset(xs[1..])) - multiset([x]) == multiset(xs[1..]); }
      multiset(xs[1..]);
    }
  }

  /** Each listed ordering is as long as xs. */
  lemma PermLength<T>(xs: seq<T>, r: seq<T>)
    requires r in Perms(xs)
    ensures |r| == |xs|
  {
    PermsSound(xs, r);
    assert |multiset(r)| == |multiset(xs)|;
  }

  /** n elements give n! orderings. */
  lemma {:induction false} PermsCount<T>(xs: seq<T>)
    ensures |Perms(xs)| == Fact(|xs|)
  {
    if xs != [] {
      var ps := Perms(xs[1..]);
      PermsCount(xs[1..]);
      forall k | 0 <= k < |ps|
        ensures |ps[k]| == |xs| - 1
      {
        PermLength(xs[1..], ps[k]);
      }
      InsertAllLength(ps, xs[0], |xs| - 1);
      assert Perms(xs) == InsertAll(ps, xs[0]);
      FactStep(|ps|, |xs|);
    }
  }

  lemma FactStep(f: nat, n: nat)
    requires n >= 1 && f == Fact(n - 1)
    ensures f * (n - 1 + 1) == Fact(n)
  {
  }

  /**
   * getListPerm(original): removes the first element, lists the orderings of the rest,
   * and inserts the first element at every index of each.
   */
  method GetListPerm<T>(original: seq<T>) returns (r: seq<seq<T>>)
    ensures r == Perms(original)
    decreases |original|
  {
    if original == [] {
      return [[]];
    }
    var first := original[0];
    var permutations := GetListPerm(original[1..]);
    r := [];
    var k := 0;
    while k < |permutations|
      invariant 0 <= k <= |permutations| && r == InsertAll(permutations[..k], first)
    {
      assert permutations[..k + 1][..k] == permutations[..k];
      var inserted := InsertEverywhere(permutations[k], first);
      r := r + inserted;
      k := k + 1;
    }
    assert permutations[..k] == permutations;
  }

  /** The inner loop of getListPerm: x inserted at every index of smaller, in order. */
  method InsertEverywhere<T>(smaller: seq<T>, x: T) returns (r: seq<seq<T>>)
    ensures r == Insertions(smaller, x)
  {
    r := [];
    var index := 0;
    while index <= |smaller|
      invariant 0 <= index <= |smaller| + 1 && r == Insertions(smaller, x)[..index]
    {
      var temp := smaller[..index] + [x] + smaller[index..];
      r := r + [temp];
      index := index + 1;
    }
    assert Insertions(smaller, x)[..index] == Insertions(smaller, x);
  }

  // ---------------------------------------------------------------------------
  // powerSet (finding)
  // ---------------------------------------------------------------------------

  /** s is a subsequence of xs: xs with some elements left out. */
  predicate Sub<T(==)>(s: seq<T>, xs: seq<T>)
    decreases |xs|
  {
    if s == [] then true
    else if xs == [] then false
    else (s[0] == xs[0] && Sub(s[1..], xs[1..])) || Sub(s, xs[1..])
  }

  /**
   * What powerSet as written returns: for each list s it returns for the tail, s itself
   * and every ordering of [head] + s.
   */
  function Arrangements<T(==)>(xs: seq<T>): set<seq<T>>
    decreases |xs|
  {
    if xs == [] then {[]}
    else
      var smaller := Arrangements(xs[1..]);
      Reordered(smaller, xs[0]) + smaller
  }

  /** Every ordering of [head] + s, for each s in ss. */
  function Reordered<T(==)>(ss: set<seq<T>>, head: T): set<seq<T>>
  {
    set s, p | s in ss && p in Perms([head] + s) :: p
  }

  lemma ReorderedAdd<T>(ss: set<seq<T>>, head: T, s: seq<T>)
    ensures Reordered(ss + {s}, head) == Reordered(ss, head) + (set p | p in Perms([head] + s))
  {
  }

  /** The subsequences of xs, as the test of powerSet expects. */
  function Subsequences<T(==)>(xs: seq<T>): set<seq<T>>
    decreases |xs|
  {
    if xs == [] then {[]}
    else
      var smaller := Subsequences(xs[1..]);
      (set s | s in smaller :: [xs[0]] + s) + smaller
  }

  /** powerSet as written: adds the orderings of [head] + set for each set of the tail. */
  method PowerSetAsWritten<T(==)>(originalSet: seq<T>) returns (sets: set<seq<T>>)
    ensures sets == Arrangements(originalSet)
    decreases |originalSet|
  {
    if originalSet == [] {
      return {[]};
    }
    var head := originalSet[0];
    var rest := originalSet[1..];
    var smaller := PowerSetAsWritten(rest);
    sets := {};
    var todo := smaller;
    while todo != {}
      invariant todo <= smaller
      invariant sets == Reordered(smaller - todo, head) + (smaller - todo)
      decreases todo
    {
      var s :| s in todo;
      ReorderedAdd(smaller - todo, head, s);
      assert smaller - (todo - {s}) == (smaller - todo) + {s};
      var perms := GetListPerm([head] + s);
      sets := sets + (set p | p in perms) + {s};
      todo := todo - {s};
    }
  }

  /** powerSet with [head] + set added once, in order: the subsequences. */
  method PowerSet<T(==)>(originalSet: seq<T>) returns (sets: set<seq<T>>)
    ensures sets == Subsequences(originalSet)
    decreases |originalSet|
  {
    if originalSet == [] {
      return {[]};
    }
    var head := originalSet[0];
    var rest := originalSet[1..];
    var smaller := PowerSet(rest);
    sets := {};
    var todo := smaller;
    while todo != {}
      invariant todo <= smaller
      invariant sets == (set s | s in smaller - todo :: [head] + s) + (smaller - todo)
      decreases todo
    {
      var s :| s in todo;
      sets := sets + {[head] + s} + {s};
      todo := todo - {s};
    }
  }

  /** The corrected power set holds exactly the subsequences. */
  lemma {:induction false} SubsequencesExactly<T>(xs: seq<T>, s: seq<T>)
    ensures s in Subsequences(xs) <==> Sub(s, xs)
    decreases |xs|
  {
    if xs != [] {
      SubsequencesExactly(xs[1..], s);
      if s != [] {
        SubsequencesExactly(xs[1..], s[1..]);
        if s[0] == xs[0] && Sub(s[1..], xs[1..]) {
          assert s == [xs[0]] + s[1..];
        }
      }
      if s in Subsequences(xs) && s !in Subsequences(xs[1..]) {
        var t :| t in Subsequences(xs[1..]) && s == [xs[0]] + t;
        assert s[1..] == t;
      }
    } else if s != [] {
      assert s !in {[]};
    }
  }

  /** As written, every subsequence is returned. */
  lemma {:induction false} ArrangementsHaveSubsequences<T>(xs: seq<T>)
    ensures Subsequences(xs) <= Arrangements(xs)
    decreases |xs|
  {
    if xs != [] {
      var rest := xs[1..];
      ArrangementsHaveSubsequences(rest);
      forall s | s in Subsequences(xs)
        ensures s in Arrangements(xs)
      {
        if s !in Subsequences(rest) {
          var t :| t in Subsequences(rest) && s == [xs[0]] + t;
          PermsComplete([xs[0]] + t, s);
        }
      }
    }
  }

  /**
   * As written, powerSet([1, 2, 3]) also holds [2, 1], which is not a subsequence (the
   * repository's test expects exactly the eight subsequences).
   */
  lemma PowerSetAsWrittenHasReordering()
    ensures [2, 1] in Arrangements([1, 2, 3]) && !Sub([2, 1], [1, 2, 3])
  {
    assert [2] in Subsequences([2, 3]) by {
      SubsequencesExactly([2, 3], [2]);
    }
    ArrangementsHaveSubsequences([2, 3]);
    assert [1, 2, 3][1..] == [2, 3];
    PermsComplete([1] + [2], [2, 1]);
    assert Sub([1], [3]) == false;
    assert !Sub([2, 1], [3]);
    assert !Sub([2, 1], [2, 3]) by {
      assert !Sub([1], [3]);
    }
  }
}
