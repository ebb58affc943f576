/**
 * src/io/github/ethankelly/NecessaryEquations.java: the singles, pairs and triples of
 * vertex states an SI model needs on a small graph.  Pairs and triples are built by
 * nested loops over the singles; a candidate is kept when its states differ (closures
 * off), its locations differ and its vertices are connected, unless an equal list is
 * already there.
 *
 * The Vertex class these methods use (with its static areStatesDifferent,
 * areLocationsDifferent and areAllConnected) is not part of this model; it is taken to
 * behave as VertexState does, with closures off and the graph given by its hasEdge
 * relation E.
 */
module Necessary {
  import opened Wrappers
  import opened VertexStates
  import Components

  /**
   * The three checks findPairs and findTriples apply to a sorted candidate.  Every
   * location must name a vertex of the graph, since hasEdge indexes its matrix with it.
   */
  predicate Needed(toAdd: seq<VertexState>, E: seq<seq<bool>>)
  {
    Components.IsMatrix(E) && LocationsIn(toAdd, |E|) &&
    AreStatesDifferent(toAdd, false) && AreLocationsDifferent(toAdd) && AreAllConnected(toAdd, E)
  }

  /** One candidate: sort it by location, then add it if it passes and is not yet present. */
  function Offer(acc: seq<seq<VertexState>>, cand: seq<VertexState>, ok: seq<VertexState> -> bool): seq<seq<VertexState>>
  {
    var toAdd := SortByLocation(cand);
    if ok(toAdd) && toAdd !in acc then acc + [toAdd] else acc
  }

  /** The list after offering every candidate in turn. */
  function Keep(cands: seq<seq<VertexState>>, ok: seq<VertexState> -> bool): seq<seq<VertexState>>
  {
    if cands == [] then [] else Offer(Keep(cands[..|cands| - 1], ok), cands[|cands| - 1], ok)
  }

  /** Every candidate sorted by location, in order. */
  function SortEach(cands: seq<seq<VertexState>>): (r: seq<seq<VertexState>>)
    ensures |r| == |cands|
  {
    if cands == [] then [] else SortEach(cands[..|cands| - 1]) + [SortByLocation(cands[|cands| - 1])]
  }

  lemma {:induction false} SortEachAt(cands: seq<seq<VertexState>>, k: int)
    requires 0 <= k < |cands|
    ensures SortEach(cands)[k] == SortByLocation(cands[k])
  {
    var init := cands[..|cands| - 1];
    if k < |init| {
      SortEachAt(init, k);
      assert cands[k] == init[k];
    }
  }

  /** Every entry of c is one of the singles. */
  predicate DrawnFrom(c: seq<VertexState>, singles: seq<VertexState>)
  {
    forall m :: 0 <= m < |c| ==> c[m] in singles
  }

  lemma DrawnFrom2(c: seq<VertexState>, singles: seq<VertexState>)
    requires |c| == 2
    ensures DrawnFrom(c, singles) <==> c[0] in singles && c[1] in singles
  {
  }

  lemma DrawnFrom3(c: seq<VertexState>, singles: seq<VertexState>)
    requires |c| == 3
    ensures DrawnFrom(c, singles) <==> c[0] in singles && c[1] in singles && c[2] in singles
  {
  }

  /**
   * When the candidates are exactly the n-entry lists drawn from the singles, their
   * sorted forms are exactly the sorted n-entry lists drawn from the singles.
   */
  lemma SortsOfDrawn(cands: seq<seq<VertexState>>, singles: seq<VertexState>, n: nat, t: seq<VertexState>)
    requires forall c :: c in cands <==> |c| == n && DrawnFrom(c, singles)
    ensures t in SortEach(cands) <==> exists c :: |c| == n && DrawnFrom(c, singles) && t == SortByLocation(c)
  {
    var sorts := SortEach(cands);
    if t in sorts {
      var k :| 0 <= k < |sorts| && sorts[k] == t;
      SortEachAt(cands, k);
      assert cands[k] in cands;
    }
    if exists c :: |c| == n && DrawnFrom(c, singles) && t == SortByLocation(c) {
      var c :| |c| == n && DrawnFrom(c, singles) && t == SortByLocation(c);
      var k :| 0 <= k < |cands| && cands[k] == c;
      SortEachAt(cands, k);
    }
  }

  /** Keep holds exactly the sorted candidates that pass. */
  lemma {:induction false} KeepMembers(cands: seq<seq<VertexState>>, ok: seq<VertexState> -> bool, t: seq<VertexState>)
    ensures t in Keep(cands, ok) <==> ok(t) && t in SortEach(cands)
  {
    if cands != [] {
      KeepMembers(cands[..|cands| - 1], ok, t);
    }
  }

  /** The contains check keeps every list out of the result a second time. */
  lemma {:induction false} KeepDistinct(cands: seq<seq<VertexState>>, ok: seq<VertexState> -> bool)
    ensures Distinct(Keep(cands, ok))
  {
    if cands != [] {
      var prev := Keep(cands[..|cands| - 1], ok);
      KeepDistinct(cands[..|cands| - 1], ok);
      var toAdd := SortByLocation(cands[|cands| - 1]);
      if ok(toAdd) && toAdd !in prev {
        DistinctConcat(prev, [toAdd]);
      }
    }
  }

  lemma KeepAppend(cands: seq<seq<VertexState>>, c: seq<VertexState>, ok: seq<VertexState> -> bool)
    ensures Keep(cands + [c], ok) == Offer(Keep(cands, ok), c, ok)
  {
    assert (cands + [c])[..|cands|] == cands;
  }

  // ---------------------------------------------------------------------------
  // findSingles
  // ---------------------------------------------------------------------------

  /** findSingles: one vertex per state per location, state by state. */
  method FindSingles(states: seq<char>, vertices: seq<int>) returns (r: seq<VertexState>)
    ensures r == SinglesOver(states, vertices)
    ensures |r| == |states| * |vertices|
  {
    r := CollectSingles(states, vertices);
  }

  // ---------------------------------------------------------------------------
  // findPairs
  // ---------------------------------------------------------------------------

  /** The candidates [v, w] for v in the first i singles and every w, in loop order. */
  function PairCands(singles: seq<VertexState>, i: nat): (r: seq<seq<VertexState>>)
    requires i <= |singles|
  {
    if i == 0 then [] else PairCands(singles, i - 1) + PairRow(singles, i - 1)
  }

  /** The candidates [singles[i], w] for every w. */
  function PairRow(singles: seq<VertexState>, i: nat): (r: seq<seq<VertexState>>)
    requires i < |singles|
    ensures |r| == |singles| && forall k :: 0 <= k < |singles| ==> r[k] == [singles[i], singles[k]]
  {
    seq(|singles|, k requires 0 <= k < |singles| => [singles[i], singles[k]])
  }

  lemma {:induction false} InPairCands(singles: seq<VertexState>, i: nat, c: seq<VertexState>)
    requires i <= |singles|
    ensures c in PairCands(singles, i) <==> |c| == 2 && c[0] in singles[..i] && c[1] in singles
  {
    if i > 0 {
      InPairCands(singles, i - 1, c);
      var row := PairRow(singles, i - 1);
      assert singles[..i] == singles[..i - 1] + [singles[i - 1]];
      if |c| == 2 && c[0] == singles[i - 1] && c[1] in singles {
        var k :| 0 <= k < |singles| && singles[k] == c[1];
        assert row[k] == c;
      }
    }
  }

  lemma InAllPairCands(singles: seq<VertexState>)
    ensures forall c :: c in PairCands(singles, |singles|) <==> |c| == 2 && DrawnFrom(c, singles)
  {
    forall c
      ensures c in PairCands(singles, |singles|) <==> |c| == 2 && DrawnFrom(c, singles)
    {
      InPairCandsAll(singles, c);
      if |c| == 2 {
        DrawnFrom2(c, singles);
      }
    }
  }

  lemma InPairCandsAll(singles: seq<VertexState>, c: seq<VertexState>)
    ensures c in PairCands(singles, |singles|) <==> |c| == 2 && c[0] in singles && c[1] in singles
  {
    InPairCands(singles, |singles|, c);
    assert singles[..|singles|] == singles;
  }

  /** The test findPairs and findTriples apply, as a function value. */
  function NeededIn(E: seq<seq<bool>>): seq<VertexState> -> bool
  {
    t => Needed(t, E)
  }

  /** The list findPairs returns. */
  function Pairs(singles: seq<VertexState>, E: seq<seq<bool>>): seq<seq<VertexState>>
  {
    Keep(PairCands(singles, |singles|), NeededIn(E))
  }

  /**
   * findPairs holds exactly the sorted pairs of singles whose states differ, whose
   * locations differ and whose vertices are adjacent, each once.
   */
  lemma PairsCorrect(singles: seq<VertexState>, E: seq<seq<bool>>, t: seq<VertexState>)
    ensures t in Pairs(singles, E) <==>
      Needed(t, E) && exists c :: |c| == 2 && DrawnFrom(c, singles) && t == SortByLocation(c)
    ensures Distinct(Pairs(singles, E))
  {
    var cands := PairCands(singles, |singles|);
    KeepMembers(cands, NeededIn(E), t);
    KeepDistinct(cands, NeededIn(E));
    InAllPairCands(singles);
    SortsOfDrawn(cands, singles, 2, t);
  }

  /** The body of the innermost loops: sort the candidate, then add it if it passes and is new. */
  method OfferOne(acc: seq<seq<VertexState>>, ghost offered: seq<seq<VertexState>>, cand: seq<VertexState>,
                  ok: seq<VertexState> -> bool) returns (r: seq<seq<VertexState>>)
    requires acc == Keep(offered, ok)
    ensures r == Keep(offered + [cand], ok)
  {
    KeepAppend(offered, cand, ok);
    var toAdd := SortByLocation(cand);
    r := acc;
    if ok(toAdd) && toAdd !in acc {
      r := acc + [toAdd];
    }
  }

  /** One more candidate of a row extends the prefix of the row taken so far. */
  lemma TakeOneMore(done: seq<seq<VertexState>>, row: seq<seq<VertexState>>, j: int)
    requires 0 <= j < |row|
    ensures done + row[..j] + [row[j]] == done + row[..j + 1]
  {
    assert row[..j + 1] == row[..j] + [row[j]];
  }

  /** The inner loop of findPairs, for v = singles[i], with the test findPairs applies as ok. */
  method PairsRow(singles: seq<VertexState>, ok: seq<VertexState> -> bool, i: nat, pairs0: seq<seq<VertexState>>)
    returns (pairs: seq<seq<VertexState>>)
    requires i < |singles| && pairs0 == Keep(PairCands(singles, i), ok)
    ensures pairs == Keep(PairCands(singles, i + 1), ok)
  {
    ghost var done := PairCands(singles, i);
    ghost var row := PairRow(singles, i);
    ghost var offered := done;
    assert done + row[..0] == done;
    var v := singles[i];
    pairs := pairs0;
    var j := 0;
    while j < |singles|
      invariant 0 <= j <= |singles| && offered == done + row[..j]
      invariant pairs == Keep(offered, ok)
    {
      var w := singles[j];
      assert row[j] == [v, w];
      pairs := OfferOne(pairs, offered, [v, w], ok);
      TakeOneMore(done, row, j);
      offered := offered + [[v, w]];
      j := j + 1;
    }
    assert row[..|singles|] == row;
    assert offered == done + row;
  }

  /** findPairs: the nested loops over the singles (the graph must hold every single's location). */
  method FindPairs(singles: seq<VertexState>, E: seq<seq<bool>>) returns (pairs: seq<seq<VertexState>>)
    requires Components.IsMatrix(E) && LocationsIn(singles, |E|)
    ensures pairs == Pairs(singles, E)
  {
    pairs := [];
    var i := 0;
    while i < |singles|
      invariant 0 <= i <= |singles| && pairs == Keep(PairCands(singles, i), NeededIn(E))
    {
      pairs := PairsRow(singles, NeededIn(E), i, pairs);
      i := i + 1;
    }
  }

  // ---------------------------------------------------------------------------
  // findTriples
  // ---------------------------------------------------------------------------

  /** The candidates [v, w, x] for v = singles[i], w in the first j singles and every x. */
  function Plane(singles: seq<VertexState>, i: nat, j: nat): (r: seq<seq<VertexState>>)
    requires i < |singles| && j <= |singles|
  {
    if j == 0 then []
    else
      Plane(singles, i, j - 1) + TripleRow(singles, i, j - 1)
  }

  /** The candidates [singles[i], singles[j], x] for every x. */
  function TripleRow(singles: seq<VertexState>, i: nat, j: nat): (r: seq<seq<VertexState>>)
    requires i < |singles| && j < |singles|
    ensures |r| == |singles| && forall k :: 0 <= k < |singles| ==> r[k] == [singles[i], singles[j], singles[k]]
  {
    seq(|singles|, k requires 0 <= k < |singles| => [singles[i], singles[j], singles[k]])
  }

  /** The candidates for v in the first i singles, in loop order. */
  function TripleCands(singles: seq<VertexState>, i: nat): seq<seq<VertexState>>
    requires i <= |singles|
  {
    if i == 0 then [] else TripleCands(singles, i - 1) + Plane(singles, i - 1, |singles|)
  }

  lemma {:induction false} InPlane(singles: seq<VertexState>, i: nat, j: nat, c: seq<VertexState>)
    requires i < |singles| && j <= |singles|
    ensures c in Plane(singles, i, j) <==> |c| == 3 && c[0] == singles[i] && c[1] in singles[..j] && c[2] in singles
  {
    if j > 0 {
      InPlane(singles, i, j - 1, c);
      var row := TripleRow(singles, i, j - 1);
      assert singles[..j] == singles[..j - 1] + [singles[j - 1]];
      if |c| == 3 && c[0] == singles[i] && c[1] == singles[j - 1] && c[2] in singles {
        var k :| 0 <= k < |singles| && singles[k] == c[2];
        assert row[k] == c;
      }
    }
  }

  lemma InFullPlane(singles: seq<VertexState>, i: nat, c: seq<VertexState>)
    requires i < |singles|
    ensures c in Plane(singles, i, |singles|) <==> |c| == 3 && c[0] == singles[i] && c[1] in singles && c[2] in singles
  {
    InPlane(singles, i, |singles|, c);
    assert singles[..|singles|] == singles;
  }

  /** A value is in the first i singles when it is in the first i - 1 or is the i-th. */
  lemma PrefixStep(singles: seq<VertexState>, i: nat)
    requires 0 < i <= |singles|
    ensures forall x :: x in singles[..i] <==> x in singles[..i - 1] || x == singles[i - 1]
  {
    assert singles[..i] == singles[..i - 1] + [singles[i - 1]];
  }

  lemma {:induction false} InTripleCands(singles: seq<VertexState>, i: nat, c: seq<VertexState>)
    requires i <= |singles|
    ensures c in TripleCands(singles, i) <==> |c| == 3 && c[0] in singles[..i] && c[1] in singles && c[2] in singles
  {
    if i > 0 {
      InTripleCands(singles, i - 1, c);
      InFullPlane(singles, i - 1, c);
      assert c in TripleCands(singles, i) <==> c in TripleCands(singles, i - 1) || c in Plane(singles, i - 1, |singles|);
      if |c| == 3 {
        PrefixStep(singles, i);
        assert c[0] in singles[..i] <==> c[0] in singles[..i - 1] || c[0] == singles[i - 1];
      }
    }
  }

  lemma InAllTripleCands(singles: seq<VertexState>)
    ensures forall c :: c in TripleCands(singles, |singles|) <==> |c| == 3 && DrawnFrom(c, singles)
  {
    forall c
      ensures c in TripleCands(singles, |singles|) <==> |c| == 3 && DrawnFrom(c, singles)
    {
      InTripleCandsAll(singles, c);
      if |c| == 3 {
        DrawnFrom3(c, singles);
      }
    }
  }

  lemma InTripleCandsAll(singles: seq<VertexState>, c: seq<VertexState>)
    ensures c in TripleCands(singles, |singles|) <==> |c| == 3 && c[0] in singles && c[1] in singles && c[2] in singles
  {
    InTripleCands(singles, |singles|, c);
    assert singles[..|singles|] == singles;
  }

  /** The list findTriples returns. */
  function Triples(singles: seq<VertexState>, E: seq<seq<bool>>): seq<seq<VertexState>>
  {
    Keep(TripleCands(singles, |singles|), NeededIn(E))
  }

  /** findTriples applies the same three checks to the sorted triples of singles. */
  lemma TriplesCorrect(singles: seq<VertexState>, E: seq<seq<bool>>, t: seq<VertexState>)
    ensures t in Triples(singles, E) <==>
      Needed(t, E) && exists c :: |c| == 3 && DrawnFrom(c, singles) && t == SortByLocation(c)
    ensures Distinct(Triples(singles, E))
  {
    var cands := TripleCands(singles, |singles|);
    KeepMembers(cands, NeededIn(E), t);
    KeepDistinct(cands, NeededIn(E));
    InAllTripleCands(singles);
    SortsOfDrawn(cands, singles, 3, t);
  }

  /** The innermost loop of findTriples, for v = singles[i] and w = singles[j], with the test as ok. */
  method TriplesRow(singles: seq<VertexState>, ok: seq<VertexState> -> bool, ghost done: seq<seq<VertexState>>,
                    i: nat, j: nat, triples0: seq<seq<VertexState>>) returns (triples: seq<seq<VertexState>>)
    requires i < |singles| && j < |singles| && triples0 == Keep(done, ok)
    ensures triples == Keep(done + TripleRow(singles, i, j), ok)
  {
    ghost var row := TripleRow(singles, i, j);
    ghost var offered := done;
    assert done + row[..0] == done;
    var v := singles[i];
    var w := singles[j];
    triples := triples0;
    var k := 0;
    while k < |singles|
      invariant 0 <= k <= |singles| && offered == done + row[..k]
      invariant triples == Keep(offered, ok)
    {
      var x := singles[k];
      assert row[k] == [v, w, x];
      triples := OfferOne(triples, offered, [v, w, x], ok);
      TakeOneMore(done, row, k);
      offered := offered + [[v, w, x]];
      k := k + 1;
    }
    assert row[..|singles|] == row;
    assert offered == done + row;
  }

  /** Appending the next row of a plane gives the plane one row further on. */
  lemma PlaneStep(singles: seq<VertexState>, i: nat, j: nat, before: seq<seq<VertexState>>)
    requires i < |singles| && j < |singles|
    ensures before + Plane(singles, i, j) + TripleRow(singles, i, j) == before + Plane(singles, i, j + 1)
  {
    assert (before + Plane(singles, i, j)) + TripleRow(singles, i, j) == before + (Plane(singles, i, j) + TripleRow(singles, i, j));
  }

  /** The middle loop of findTriples, for v = singles[i], with the test as ok. */
  method TriplesPlane(singles: seq<VertexState>, ok: seq<VertexState> -> bool, i: nat, triples0: seq<seq<VertexState>>)
    returns (triples: seq<seq<VertexState>>)
    requires i < |singles| && triples0 == Keep(TripleCands(singles, i), ok)
    ensures triples == Keep(TripleCands(singles, i + 1), ok)
  {
    NextCands(singles, i);
    triples := TriplesFrom(singles, ok, i, TripleCands(singles, i), triples0);
  }

  /** The loop over w for v = singles[i], after the candidates done were offered. */
  method TriplesFrom(singles: seq<VertexState>, ok: seq<VertexState> -> bool, i: nat, ghost done: seq<seq<VertexState>>,
                     triples0: seq<seq<VertexState>>) returns (triples: seq<seq<VertexState>>)
    requires i < |singles| && triples0 == Keep(done, ok)
    ensures triples == Keep(done + Plane(singles, i, |singles|), ok)
  {
    ghost var offered := done;
    assert done + Plane(singles, i, 0) == done;
    triples := triples0;
    var j := 0;
    while j < |singles|
      invariant 0 <= j <= |singles| && offered == done + Plane(singles, i, j)
      invariant triples == Keep(offered, ok)
    {
      triples := TriplesRow(singles, ok, offered, i, j, triples);
      PlaneStep(singles, i, j, done);
      offered := offered + TripleRow(singles, i, j);
      j := j + 1;
    }
    assert j == |singles|;
  }

  /** The candidates for the first i + 1 singles: those for the first i, then plane i. */
  lemma NextCands(singles: seq<VertexState>, i: nat)
    requires i < |singles|
    ensures TripleCands(singles, i + 1) == TripleCands(singles, i) + Plane(singles, i, |singles|)
  {
  }

  /** findTriples: three nested loops over the singles (the graph must hold every single's location). */
  method FindTriples(singles: seq<VertexState>, E: seq<seq<bool>>) returns (triples: seq<seq<VertexState>>)
    requires Components.IsMatrix(E) && LocationsIn(singles, |E|)
    ensures triples == Triples(singles, E)
  {
    triples := [];
    var i := 0;
    while i < |singles|
      invariant 0 <= i <= |singles| && triples == Keep(TripleCands(singles, i), NeededIn(E))
    {
      triples := TriplesPlane(singles, NeededIn(E), i, triples);
      i := i + 1;
    }
  }

  // ---------------------------------------------------------------------------
  // findTuples
  // ---------------------------------------------------------------------------

  /** One pass of the while loop: the switch lowers tupleNumber only in cases 1, 2 and 3. */
  function Step(k: int): int
  {
    if 1 <= k <= 3 then k - 1 else k
  }

  /** tupleNumber after m passes, starting from k. */
  function Iterate(k: int, m: nat): int
  {
    if m == 0 then k else Iterate(Step(k), m - 1)
  }

  /** Above 3 the switch has no matching case, so the loop never ends. */
  lemma {:induction false} NeverTerminates(k: int, m: nat)
    requires k > 3
    ensures Iterate(k, m) == k && Iterate(k, m) > 0
  {
    if m > 0 {
      NeverTerminates(k, m - 1);
      assert Step(k) == k;
    }
  }

  /** From 0 to 3 the loop ends after exactly k passes. */
  lemma {:induction false} Terminates(k: int)
    requires 0 <= k <= 3
    ensures Iterate(k, k as nat) == 0
    ensures forall m :: 0 <= m < k ==> Iterate(k, m) > 0
  {
    if k > 0 {
      Terminates(k - 1);
      assert Step(k) == k - 1;
      forall m | 0 <= m < k ensures Iterate(k, m) > 0 {
        if m > 0 {
          assert Iterate(k, m) == Iterate(k - 1, m - 1);
        }
      }
    }
  }

  /** What the passes from tupleNumber = k down to 1 add, in that order. */
  function TuplesFrom(k: nat, singles: seq<VertexState>, E: seq<seq<bool>>): seq<seq<VertexState>>
    requires k <= 3
  {
    if k == 0 then []
    else if k == 1 then [singles]
    else if k == 2 then Pairs(singles, E) + TuplesFrom(1, singles, E)
    else Triples(singles, E) + TuplesFrom(2, singles, E)
  }

  /**
   * findTuples: None stands for the loop that never ends when there are more than three
   * vertices.  Otherwise the triples come first, then the pairs, then the singles list
   * itself as one more entry.
   */
  method FindTuples(E: seq<seq<bool>>, states: seq<char>, vertices: seq<int>) returns (r: Option<seq<seq<VertexState>>>)
    requires Components.IsMatrix(E) && forall i :: 0 <= i < |vertices| ==> 0 <= vertices[i] < |E|
    ensures r.None? <==> |vertices| > 3
    ensures r.Some? ==> r.value == TuplesFrom(|vertices|, SinglesOver(states, vertices), E)
  {
    var tupleNumber := |vertices|;
    var singles := FindSingles(states, vertices);
    forall x | x in singles ensures 0 <= x.location < |E| {
      InSinglesOver(states, vertices, x);
    }
    if tupleNumber > 3 {
      NeverTerminates(tupleNumber, 1);
      return None;
    }
    var tuples: seq<seq<VertexState>> := [];
    while tupleNumber > 0
      invariant 0 <= tupleNumber <= |vertices|
      invariant tuples + TuplesFrom(tupleNumber, singles, E) == TuplesFrom(|vertices|, singles, E)
    {
      var found := FindOfSize(singles, E, tupleNumber);
      ghost var rest := TuplesFrom(tupleNumber - 1, singles, E);
      assert (tuples + found) + rest == tuples + (found + rest);
      tuples := tuples + found;
      tupleNumber := tupleNumber - 1;
    }
    return Some(tuples);
  }

  /** One pass of findTuples' loop: the lists of size k come before those of the smaller sizes. */
  method FindOfSize(singles: seq<VertexState>, E: seq<seq<bool>>, k: nat) returns (found: seq<seq<VertexState>>)
    requires Components.IsMatrix(E) && LocationsIn(singles, |E|) && 1 <= k <= 3
    ensures TuplesFrom(k, singles, E) == found + TuplesFrom(k - 1, singles, E)
  {
    if k == 1 {
      found := [singles];
      assert found + [] == found;
    } else if k == 2 {
      found := FindPairs(singles, E);
    } else {
      found := FindTriples(singles, E);
    }
  }
}
