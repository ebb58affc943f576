/**
 * src/io/github/ethankelly/Tuples.java: which state/vertex tuples an epidemic model on
 * a graph needs equations for.  The singles (one vertex in one state) are enumerated
 * state-major, every subset of them is generated by a recursive helper that pushes and
 * pops a shared `selected` list, the subsets that are not valid tuples are removed, the
 * singles are put back, and the list is sorted by compareTo.  Tuple inherits size() from
 * ArrayList without ever filling the inherited list, so size() is 0: as written a single
 * fails the state test (unless it is S and closures are on) and the sort ties every
 * pair.  isValidTuple hands areAllConnected the tuple object, whose inherited list is
 * that same empty list, so as written the connectivity test passes every tuple.  Each
 * such operation appears twice, as written (a name ending in AsWritten) and as intended
 * (with the tuple's real vertex list).
 *
 * The graph is passed as its hasEdge relation E on locations 0..|E|-1.  The Vertex(char,
 * int) class this file builds is not part of this model; it is the VertexState value
 * (value equality, ordered by location).
 */
module Tuples {
  import opened Wrappers
  import opened VertexStates
  import Components

  /** Tuples.Tuple: the vertex list it holds (its `singles` field). */
  datatype Tuple = Tuple(singles: seq<VertexState>)

  /** new Tuple(list): the list is sorted by location before it is stored. */
  function FromList(list: seq<VertexState>): (t: Tuple)
    ensures multiset(t.singles) == multiset(list) && SortedByLocation(t.singles)
  {
    SortPermutesAndSorts(list);
    Tuple(SortByLocation(list))
  }

  // ---------------------------------------------------------------------------
  // Arrays.sort on the states, and the SIR / SIRP collapse
  // ---------------------------------------------------------------------------

  predicate CharsSorted(s: seq<char>)
  {
    forall i, j :: 0 <= i < j < |s| ==> s[i] <= s[j]
  }

  function InsertChar(s: seq<char>, c: char): (r: seq<char>)
    ensures multiset(r) == multiset(s) + multiset{c} && |r| == |s| + 1
    ensures CharsSorted(s) ==> CharsSorted(r)
  {
    if s == [] || s[|s| - 1] <= c then s + [c]
    else
      var init := s[..|s| - 1];
      var r := InsertChar(init, c) + [s[|s| - 1]];
      assert s == init + [s[|s| - 1]];
      InsertCharBelow(s, c, r);
      r
  }

  /** The step InsertChar needs: everything moved in front of the old last letter stays below it. */
  lemma InsertCharBelow(s: seq<char>, c: char, r: seq<char>)
    requires s != [] && c < s[|s| - 1]
    requires r == InsertChar(s[..|s| - 1], c) + [s[|s| - 1]]
    ensures CharsSorted(s) ==> CharsSorted(r)
  {
    var init := s[..|s| - 1];
    var front := InsertChar(init, c);
    if CharsSorted(s) {
      assert CharsSorted(init);
      forall k | 0 <= k < |front|
        ensures front[k] <= s[|s| - 1]
      {
        assert front[k] in multiset(front);
        if front[k] != c {
          assert front[k] in multiset(init);
          var m :| 0 <= m < |init| && init[m] == front[k];
          assert s[m] == front[k];
        }
      }
    }
  }

  /** Arrays.sort(char[]): ascending order of the same letters. */
  function SortChars(s: seq<char>): (r: seq<char>)
    ensures multiset(r) == multiset(s) && |r| == |s| && CharsSorted(r)
  {
    if s == [] then []
    else
      assert s == s[..|s| - 1] + [s[|s| - 1]];
      InsertChar(SortChars(s[..|s| - 1]), s[|s| - 1])
  }

  /** Sorting sorted letters changes nothing, so sorting twice is sorting once. */
  lemma {:induction false} SortCharsSorted(s: seq<char>)
    requires CharsSorted(s)
    ensures SortChars(s) == s
  {
    if s != [] {
      var init := s[..|s| - 1];
      assert CharsSorted(init);
      SortCharsSorted(init);
      assert SortChars(s) == InsertChar(init, s[|s| - 1]);
      if init != [] {
        assert init[|init| - 1] == s[|s| - 2] <= s[|s| - 1];
      }
      assert s == init + [s[|s| - 1]];
    }
  }

  lemma SortCharsIdempotent(s: seq<char>)
    ensures SortChars(SortChars(s)) == SortChars(s)
  {
    SortCharsSorted(SortChars(s));
  }

  /** The sorted state arrays of the States enum: sir, si, sirp, sip. */
  const Sir: seq<char> := "IRS"
  const Si: seq<char> := "IS"
  const Sirp: seq<char> := "IPRS"
  const Sip: seq<char> := "IPS"

  /**
   * The states findSingles enumerates: the sorted states, except that SIR becomes SI
   * and SIRP becomes SIP (a recovered vertex needs no equation of its own).
   */
  function SingleStates(sorted: seq<char>): (r: seq<char>)
    ensures sorted == Sir ==> r == Si
    ensures sorted == Sirp ==> r == Sip
    ensures sorted != Sir && sorted != Sirp ==> r == sorted
  {
    if sorted == Sir then Si else if sorted == Sirp then Sip else sorted
  }

  /** S, I, R in any order collapses to I, S. */
  lemma SirCollapses(states: seq<char>)
    requires multiset(states) == multiset(Sir)
    ensures SingleStates(SortChars(states)) == Si
  {
    var s := SortChars(states);
    assert |s| == 3;
    assert multiset(s) == multiset{'I', 'R', 'S'};
    assert s[0] in multiset(s) && s[1] in multiset(s) && s[2] in multiset(s);
    assert 'I' in s && 'R' in s && 'S' in s;
    assert s == Sir;
  }

  // ---------------------------------------------------------------------------
  // Tuple.size(), Tuple.compareTo and Collections.sort by size
  // ---------------------------------------------------------------------------

  /** The number of vertices in the tuple. */
  function Size(t: Tuple): nat
  {
    |t.singles|
  }

  /** compareTo: positive when o is larger, so larger tuples sort first. */
  function CompareTo(t: Tuple, o: Tuple): (r: int)
    ensures r < 0 <==> Size(t) > Size(o)
    ensures r > 0 <==> Size(t) < Size(o)
  {
    if Size(o) < Size(t) then -1 else if Size(o) > Size(t) then 1 else 0
  }

  /** Sizes never increase along the list. */
  predicate DecreasingSize(s: seq<Tuple>)
  {
    forall i, j :: 0 <= i < j < |s| ==> Size(s[i]) >= Size(s[j])
  }

  /** Insert x after every entry that compareTo does not put after x (the stable position). */
  function InsertBySize(s: seq<Tuple>, x: Tuple): (r: seq<Tuple>)
    ensures multiset(r) == multiset(s) + multiset{x} && |r| == |s| + 1
    ensures DecreasingSize(s) ==> DecreasingSize(r)
    decreases |s|, 2
  {
    if s == [] || CompareTo(s[|s| - 1], x) <= 0 then s + [x]
    else
      var init := s[..|s| - 1];
      var r := InsertBySize(init, x) + [s[|s| - 1]];
      assert s == init + [s[|s| - 1]];
      InsertBySizeAbove(s, x, r);
      r
  }

  lemma InsertBySizeAbove(s: seq<Tuple>, x: Tuple, r: seq<Tuple>)
    requires s != [] && Size(s[|s| - 1]) < Size(x)
    requires r == InsertBySize(s[..|s| - 1], x) + [s[|s| - 1]]
    ensures DecreasingSize(s) ==> DecreasingSize(r)
    decreases |s|, 1
  {
    var init := s[..|s| - 1];
    var front := InsertBySize(init, x);
    if DecreasingSize(s) {
      assert DecreasingSize(init);
      forall k | 0 <= k < |front|
        ensures Size(front[k]) >= Size(s[|s| - 1])
      {
        InsertBySizeMember(init, x, front[k]);
        if front[k] != x {
          var m :| 0 <= m < |init| && init[m] == front[k];
          assert s[m] == front[k];
        }
      }
      assert DecreasingSize(front);
    }
  }

  /** An entry of the list with x inserted is x or an entry of the list. */
  lemma InsertBySizeMember(s: seq<Tuple>, x: Tuple, y: Tuple)
    requires y in InsertBySize(s, x)
    ensures y == x || y in s
    decreases |s|, 3
  {
    assert y in multiset(InsertBySize(s, x));
  }

  /** Collections.sort(list) with compareTo as intended: a stable sort by decreasing size. */
  function SortBySize(s: seq<Tuple>): (r: seq<Tuple>)
    ensures multiset(r) == multiset(s) && |r| == |s| && DecreasingSize(r)
  {
    if s == [] then []
    else
      assert s == s[..|s| - 1] + [s[|s| - 1]];
      InsertBySize(SortBySize(s[..|s| - 1]), s[|s| - 1])
  }

  /** Stability: a list already in decreasing size order, such as the singles, is left as it is. */
  lemma {:induction false} SortBySizeSorted(s: seq<Tuple>)
    requires DecreasingSize(s)
    ensures SortBySize(s) == s
  {
    if s != [] {
      var init := s[..|s| - 1];
      assert DecreasingSize(init);
      SortBySizeSorted(init);
      assert SortBySize(s) == InsertBySize(init, s[|s| - 1]);
      if init != [] {
        assert init[|init| - 1] == s[|s| - 2];
        assert CompareTo(init[|init| - 1], s[|s| - 1]) <= 0;
      }
      assert s == init + [s[|s| - 1]];
    }
  }

  // ---------------------------------------------------------------------------
  // Tuple.size() as written (finding)
  // ---------------------------------------------------------------------------

  /**
   * Tuples.Tuple extends ArrayList<Vertex> but keeps its vertices in its own `singles`
   * field and never adds to the inherited list, so the inherited size() is always 0.
   */
  function SizeAsWritten(t: Tuple): nat
  {
    |Inherited(t)|
  }

  /** The inherited ArrayList contents of a tuple, which nothing ever adds to. */
  function Inherited(t: Tuple): seq<VertexState>
  {
    []
  }

  /** areStatesDifferent as written: the `size() == 1` shortcut can never fire. */
  predicate AreStatesDifferentAsWritten(t: Tuple, reqClosures: bool)
  {
    SizeAsWritten(t) == 1 ||
    exists i, j :: 0 <= i < |t.singles| && 0 <= j < |t.singles| && Differs(t.singles[i], t.singles[j], reqClosures)
  }

  /** compareTo as written: Integer.compare(0, 0), so every pair of tuples ties. */
  function CompareToAsWritten(t: Tuple, o: Tuple): int
  {
    if SizeAsWritten(o) < SizeAsWritten(t) then -1 else if SizeAsWritten(o) > SizeAsWritten(t) then 1 else 0
  }

  /**
   * As written, the single <I0> is not a required tuple without closures, and a pair
   * ties with a single under compareTo, so sorting cannot put larger tuples first.
   */
  lemma SizeAsWrittenMisjudges()
    ensures !AreStatesDifferentAsWritten(Tuple([VertexState('I', 0)]), false)
    ensures CompareToAsWritten(Tuple([VertexState('S', 0), VertexState('I', 1)]), Tuple([VertexState('I', 0)])) == 0
  {
  }

  /**
   * areStatesDifferent with the tuple's real size: a single is always required; a larger
   * tuple is required when its states are not all equal, or closures are on and one is S.
   */
  predicate AreStatesDifferent(t: Tuple, reqClosures: bool)
  {
    VertexStates.AreStatesDifferent(t.singles, reqClosures)
  }

  lemma StatesDifferentCases(t: Tuple, reqClosures: bool)
    ensures Size(t) == 1 ==> AreStatesDifferent(t, reqClosures)
    ensures Size(t) != 1 ==>
      (AreStatesDifferent(t, reqClosures) <==> !AllSameState(t.singles) || (reqClosures && SomeSusceptible(t.singles)))
    ensures CompareTo(Tuple([VertexState('S', 0), VertexState('I', 1)]), Tuple([VertexState('I', 0)])) < 0
  {
    if Size(t) != 1 {
      StatesDifferentIff(t.singles, reqClosures);
    }
  }

  /**
   * Collections.sort's insertion step under compareTo as written: every pair ties, so
   * the stable position of x is always the end (the branch that would move x further
   * forward cannot be taken).
   */
  function InsertAsWritten(s: seq<Tuple>, x: Tuple): (r: seq<Tuple>)
    ensures r == s + [x]
  {
    if s == [] || CompareToAsWritten(s[|s| - 1], x) <= 0 then s + [x]
    else assert false; s + [x]
  }

  /** Collections.sort(list) with compareTo as written: the list keeps its order. */
  function SortAsWritten(s: seq<Tuple>): (r: seq<Tuple>)
    ensures r == s
  {
    if s == [] then []
    else
      assert s == s[..|s| - 1] + [s[|s| - 1]];
      InsertAsWritten(SortAsWritten(s[..|s| - 1]), s[|s| - 1])
  }

  // ---------------------------------------------------------------------------
  // Tuple.add
  // ---------------------------------------------------------------------------

  /**
   * add(v) as written.  `copy` is built around the very list the tuple holds, so once v
   * is appended and the list re-sorted, the comparison sees the list against itself and
   * reports no change.  A tuple made by Tuple(Vertex) holds Collections.singletonList,
   * which refuses to grow; `growable` says whether the tuple's list accepts add.
   */
  function AddAsWritten(t: Tuple, v: VertexState, growable: bool): (r: Result<(Tuple, bool)>)
    ensures r.Err? <==> !growable
    ensures r.Err? ==> r.fault == UnsupportedOperation
    ensures r.Ok? ==> multiset(r.value.0.singles) == multiset(t.singles) + multiset{v}
                      && SortedByLocation(r.value.0.singles) && !r.value.1
  {
    if !growable then Err(UnsupportedOperation)
    else
      var grown := FromList(t.singles + [v]);
      var copy := grown;
      Ok((grown, grown != copy))
  }

  /**
   * add as intended: the list always accepts v (RequiredTuples.Tuple(Vertex) wraps the
   * singleton in an ArrayList for this reason) and the copy is taken before the insertion,
   * so the answer says whether the list changed, which it always does.
   */
  function Add(t: Tuple, v: VertexState): (r: (Tuple, bool))
    ensures multiset(r.0.singles) == multiset(t.singles) + multiset{v} && SortedByLocation(r.0.singles)
    ensures r.1 <==> r.0 != t
    ensures r.1
  {
    var copy := t;
    var grown := FromList(t.singles + [v]);
    (grown, grown != copy)
  }

  /**
   * On a growable list, add as written builds the same list as add as intended but
   * reports that nothing changed; on a single it throws.
   */
  lemma AddAsWrittenMisreports(t: Tuple, v: VertexState)
    ensures AddAsWritten(t, v, true) == Ok((Add(t, v).0, false)) && Add(t, v).1
    ensures AddAsWritten(Tuple([v]), v, false) == Err(UnsupportedOperation)
  {
  }

  // ---------------------------------------------------------------------------
  // isValidTuple
  // ---------------------------------------------------------------------------

  /**
   * isValidTuple: the states are different, the locations are different and the
   * vertices are connected in the graph (a vertex outside the graph is not).
   */
  predicate IsValidTuple(t: Tuple, E: seq<seq<bool>>, closures: bool)
    requires Components.IsMatrix(E)
  {
    AreStatesDifferent(t, closures) && AreLocationsDifferent(t.singles) &&
    LocationsIn(t.singles, |E|) && AreAllConnected(t.singles, E)
  }

  /**
   * isValidTuple as written: areStatesDifferent as written, and g.areAllConnected(this)
   * handed the tuple object itself, whose inherited list is empty, so the connectivity
   * test passes every tuple.
   */
  predicate IsValidTupleAsWritten(t: Tuple, E: seq<seq<bool>>, closures: bool)
    requires Components.IsMatrix(E)
  {
    AreStatesDifferentAsWritten(t, closures) && AreLocationsDifferent(t.singles) &&
    AreAllConnected(Inherited(t), E)
  }

  /**
   * As written only the state and location tests count, and a single passes only when
   * its vertex is S and closures are on.  As intended a tuple of other than one vertex
   * must also lie in the graph and be connected, and a single passes when it lies in
   * the graph.
   */
  lemma ValidAsWrittenCases(t: Tuple, E: seq<seq<bool>>, closures: bool)
    requires Components.IsMatrix(E)
    ensures IsValidTupleAsWritten(t, E, closures) <==>
      AreStatesDifferentAsWritten(t, closures) && AreLocationsDifferent(t.singles)
    ensures Size(t) != 1 ==> (IsValidTuple(t, E, closures) <==>
      IsValidTupleAsWritten(t, E, closures) && LocationsIn(t.singles, |E|) && AreAllConnected(t.singles, E))
    ensures Size(t) == 1 ==> (IsValidTupleAsWritten(t, E, closures) <==> closures && t.singles[0].state == 'S')
    ensures Size(t) == 1 ==> (IsValidTuple(t, E, closures) <==> 0 <= t.singles[0].location < |E|)
  {
    if Size(t) == 1 && closures && t.singles[0].state == 'S' {
      assert Differs(t.singles[0], t.singles[0], closures);
    }
  }

  /**
   * On the path 0-1-2 without closures, [S0, I2] passes isValidTuple as written (its
   * states and locations differ) although 0 and 2 are not adjacent.
   */
  lemma ValidAsWrittenKeepsDisconnected()
    ensures var E := [[false, true, false], [true, false, true], [false, true, false]];
      var t := Tuple([VertexState('S', 0), VertexState('I', 2)]);
      IsValidTupleAsWritten(t, E, false) && !IsValidTuple(t, E, false)
  {
    var E := [[false, true, false], [true, false, true], [false, true, false]];
    var t := Tuple([VertexState('S', 0), VertexState('I', 2)]);
    assert Differs(t.singles[0], t.singles[1], false);
    assert !E[t.singles[0].location][t.singles[1].location];
  }

  // ---------------------------------------------------------------------------
  // findSingles
  // ---------------------------------------------------------------------------

  /** One single per state of `cs` per vertex 0..n-1, state-major, each wrapped in a Tuple. */
  function SinglesOf(cs: seq<char>, n: nat): (r: seq<Tuple>)
    ensures |r| == |cs| * n && AllSingles(r)
  {
    var s := SinglesOver(cs, Range(n));
    seq(|s|, k requires 0 <= k < |s| => Tuple([s[k]]))
  }

  /** The singles are exactly the one-vertex tuples of a listed state at a vertex of the graph. */
  lemma InSinglesOf(cs: seq<char>, n: nat, t: Tuple)
    ensures t in SinglesOf(cs, n) <==> |t.singles| == 1 && t.singles[0].state in cs && 0 <= t.singles[0].location < n
  {
    var s := SinglesOver(cs, Range(n));
    if t in SinglesOf(cs, n) {
      var k :| 0 <= k < |s| && SinglesOf(cs, n)[k] == t;
      InSinglesOver(cs, Range(n), s[k]);
    }
    if |t.singles| == 1 && t.singles[0].state in cs && 0 <= t.singles[0].location < n {
      assert Range(n)[t.singles[0].location] == t.singles[0].location;
      InSinglesOver(cs, Range(n), t.singles[0]);
      var k :| 0 <= k < |s| && s[k] == t.singles[0];
      assert SinglesOf(cs, n)[k] == t;
    }
  }

  /** For SIR on n vertices there are 2n singles: S and I at every vertex. */
  lemma SirSingles(states: seq<char>, n: nat)
    requires multiset(states) == multiset(Sir)
    ensures |SinglesOf(SingleStates(SortChars(states)), n)| == 2 * n
  {
    SirCollapses(states);
  }

  lemma SinglesDecreasing(cs: seq<char>, n: nat)
    ensures DecreasingSize(SinglesOf(cs, n))
  {
  }

  // ---------------------------------------------------------------------------
  // The recursive subset enumeration
  // ---------------------------------------------------------------------------

  /** Every entry is a one-vertex tuple, as findSingles makes them. */
  predicate AllSingles(items: seq<Tuple>)
  {
    forall k :: 0 <= k < |items| ==> |items[k].singles| == 1
  }

  /**
   * The vertex lists the helper hands to `new Tuple(...)`, in order: first every list
   * without items[index], then every list with it.
   */
  function Selections(items: seq<Tuple>, selected: seq<VertexState>, index: nat): (r: seq<seq<VertexState>>)
    requires index <= |items| && AllSingles(items)
    decreases |items| - index
  {
    if index == |items| then [selected]
    else Selections(items, selected, index + 1) + Selections(items, selected + [items[index].singles[0]], index + 1)
  }

  function Pow2(k: nat): nat
  {
    if k == 0 then 1 else 2 * Pow2(k - 1)
  }

  /** The helper produces 2^k lists for k remaining items. */
  lemma {:induction false} SelectionsCount(items: seq<Tuple>, selected: seq<VertexState>, index: nat)
    requires index <= |items| && AllSingles(items)
    ensures |Selections(items, selected, index)| == Pow2(|items| - index)
    decreases |items| - index
  {
    if index < |items| {
      SelectionsCount(items, selected, index + 1);
      SelectionsCount(items, selected + [items[index].singles[0]], index + 1);
    }
  }

  /** The vertices of items[index..] that a choice mask picks, in item order. */
  function Picked(items: seq<Tuple>, index: nat, mask: seq<bool>): (r: seq<VertexState>)
    requires index <= |items| && AllSingles(items) && |mask| == |items| - index
    decreases |mask|
  {
    if mask == [] then []
    else (if mask[0] then [items[index].singles[0]] else []) + Picked(items, index + 1, mask[1..])
  }

  /** Every choice of items is enumerated: all 2^k subsets appear. */
  lemma {:induction false} SelectionsComplete(items: seq<Tuple>, selected: seq<VertexState>, index: nat, mask: seq<bool>)
    requires index <= |items| && AllSingles(items) && |mask| == |items| - index
    ensures selected + Picked(items, index, mask) in Selections(items, selected, index)
    decreases |mask|
  {
    if mask != [] {
      var x := items[index].singles[0];
      if mask[0] {
        SelectionsComplete(items, selected + [x], index + 1, mask[1..]);
        assert selected + Picked(items, index, mask) == (selected + [x]) + Picked(items, index + 1, mask[1..]);
      } else {
        SelectionsComplete(items, selected, index + 1, mask[1..]);
        assert Picked(items, index, mask) == Picked(items, index + 1, mask[1..]);
      }
    } else {
      assert selected + Picked(items, index, mask) == selected;
    }
  }

  /** And nothing else is enumerated: each list is the selection so far plus some choice. */
  lemma {:induction false} SelectionsSound(items: seq<Tuple>, selected: seq<VertexState>, index: nat, s: seq<VertexState>)
    requires index <= |items| && AllSingles(items)
    requires s in Selections(items, selected, index)
    ensures exists mask :: |mask| == |items| - index && s == selected + Picked(items, index, mask)
    decreases |items| - index
  {
    if index == |items| {
      assert s == selected + Picked(items, index, []);
    } else {
      var x := items[index].singles[0];
      if s in Selections(items, selected, index + 1) {
        SelectionsSound(items, selected, index + 1, s);
        var m :| |m| == |items| - (index + 1) && s == selected + Picked(items, index + 1, m);
        assert ([false] + m)[1..] == m;
        assert Picked(items, index, [false] + m) == Picked(items, index + 1, m);
      } else {
        SelectionsSound(items, selected + [x], index + 1, s);
        var m :| |m| == |items| - (index + 1) && s == (selected + [x]) + Picked(items, index + 1, m);
        assert ([true] + m)[1..] == m;
        var rest := Picked(items, index + 1, m);
        assert Picked(items, index, [true] + m) == [x] + rest;
        assert (selected + [x]) + rest == selected + ([x] + rest);
      }
    }
  }

  /** new Tuple(new ArrayList<>(selected)) for each enumerated list. */
  function Tupled(ss: seq<seq<VertexState>>): (r: seq<Tuple>)
    ensures |r| == |ss| && forall k :: 0 <= k < |ss| ==> r[k] == FromList(ss[k])
  {
    seq(|ss|, k requires 0 <= k < |ss| => FromList(ss[k]))
  }

  lemma TupledAppend(a: seq<seq<VertexState>>, b: seq<seq<VertexState>>)
    ensures Tupled(a + b) == Tupled(a) + Tupled(b)
  {
    var l, r := Tupled(a + b), Tupled(a) + Tupled(b);
    forall k | 0 <= k < |a + b| ensures l[k] == r[k] {
      if k < |a| {
        assert (a + b)[k] == a[k];
      } else {
        assert (a + b)[k] == b[k - |a|];
      }
    }
  }

  /** The two ArrayLists the helper shares across its recursive calls. */
  class VertexList {
    var elems: seq<VertexState>
    constructor ()
      ensures elems == []
    {
      elems := [];
    }
  }

  class TupleList {
    var elems: seq<Tuple>
    constructor ()
      ensures elems == []
    {
      elems := [];
    }
  }

  /** Appending the tuples of one part, then of the other, appends those of the whole. */
  lemma TupledSplit(done: seq<Tuple>, middle: seq<Tuple>, final: seq<Tuple>,
                    all: seq<seq<VertexState>>, first: seq<seq<VertexState>>, second: seq<seq<VertexState>>)
    requires all == first + second
    requires middle == done + Tupled(first) && final == middle + Tupled(second)
    ensures final == done + Tupled(all)
  {
    TupledAppend(first, second);
    assert (done + Tupled(first)) + Tupled(second) == done + (Tupled(first) + Tupled(second));
  }

  /**
   * The recursive helper generateTuples(items, selected, index, result): each call
   * appends its enumerated tuples to `result` and leaves `selected` as it found it.
   */
  method GenerateFrom(items: seq<Tuple>, selected: VertexList, index: nat, result: TupleList)
    requires index <= |items| && AllSingles(items)
    modifies selected, result
    ensures selected.elems == old(selected.elems)
    ensures result.elems == old(result.elems) + Tupled(Selections(items, old(selected.elems), index))
    decreases |items| - index
  {
    if index >= |items| {
      result.elems := result.elems + [FromList(selected.elems)];
    } else {
      ghost var before, done := selected.elems, result.elems;
      GenerateFrom(items, selected, index + 1, result);
      ghost var middle := result.elems;
      selected.elems := selected.elems + [items[index].singles[0]];
      GenerateFrom(items, selected, index + 1, result);
      selected.elems := selected.elems[..|selected.elems| - 1];
      assert selected.elems == before;
      TupledSplit(done, middle, result.elems, Selections(items, before, index),
                  Selections(items, before, index + 1), Selections(items, before + [items[index].singles[0]], index + 1));
    }
  }

  /**
   * generateTuples(items, new ArrayList<>(), 0, result) on a fresh result list: one tuple
   * per choice of items.
   */
  method GenerateAll(items: seq<Tuple>) returns (all: seq<Tuple>)
    requires AllSingles(items)
    ensures all == Tupled(Selections(items, [], 0))
  {
    var result := new TupleList();
    var selected := new VertexList();
    GenerateFrom(items, selected, 0, result);
    all := result.elems;
  }

  // ---------------------------------------------------------------------------
  // generateTuples
  // ---------------------------------------------------------------------------

  /** result.removeIf(row -> !row.isValidTuple(graph, closures)), as written. */
  function KeepValidAsWritten(ts: seq<Tuple>, E: seq<seq<bool>>, closures: bool): (r: seq<Tuple>)
    requires Components.IsMatrix(E)
    ensures forall t :: t in r <==> t in ts && IsValidTupleAsWritten(t, E, closures)
  {
    if ts == [] then []
    else
      var rest := KeepValidAsWritten(ts[1..], E, closures);
      assert ts == [ts[0]] + ts[1..];
      if IsValidTupleAsWritten(ts[0], E, closures) then [ts[0]] + rest else rest
  }

  /** The same removeIf with isValidTuple as intended (the tuple's real size). */
  function KeepValid(ts: seq<Tuple>, E: seq<seq<bool>>, closures: bool): (r: seq<Tuple>)
    requires Components.IsMatrix(E)
    ensures forall t :: t in r <==> t in ts && IsValidTuple(t, E, closures)
  {
    if ts == [] then []
    else
      var rest := KeepValid(ts[1..], E, closures);
      assert ts == [ts[0]] + ts[1..];
      if IsValidTuple(ts[0], E, closures) then [ts[0]] + rest else rest
  }

  /**
   * singles.stream().filter(s -> !result.contains(s)).forEach(result::add): each single
   * is checked against the list as it grows.
   */
  function AddMissing(result: seq<Tuple>, singles: seq<Tuple>): (r: seq<Tuple>)
    ensures forall t :: t in r <==> t in result || t in singles
    ensures |r| >= |result| && r[..|result|] == result
    decreases |singles|
  {
    if singles == [] then result
    else
      assert singles == [singles[0]] + singles[1..];
      AddMissing(if singles[0] in result then result else result + [singles[0]], singles[1..])
  }

  /** The states, sorted, then collapsed. */
  function StatesUsed(states: seq<char>): seq<char>
  {
    SingleStates(SortChars(states))
  }

  /** The list generateTuples as written returns for a graph E and the states field. */
  function GeneratedAsWritten(E: seq<seq<bool>>, states: seq<char>, closures: bool): seq<Tuple>
    requires Components.IsMatrix(E)
  {
    var items := SinglesOf(StatesUsed(states), |E|);
    var kept := KeepValidAsWritten(Tupled(Selections(items, [], 0)), E, closures);
    SortAsWritten(AddMissing(kept, items))
  }

  /** The list generateTuples returns when size() is the tuple's real size. */
  function Generated(E: seq<seq<bool>>, states: seq<char>, closures: bool): seq<Tuple>
    requires Components.IsMatrix(E)
  {
    var items := SinglesOf(StatesUsed(states), |E|);
    var kept := KeepValid(Tupled(Selections(items, [], 0)), E, closures);
    SortBySize(AddMissing(kept, items))
  }

  /** Every tuple returned is a single or a valid tuple drawn from the singles. */
  lemma GeneratedSound(E: seq<seq<bool>>, states: seq<char>, closures: bool, t: Tuple)
    requires Components.IsMatrix(E)
    requires t in Generated(E, states, closures)
    ensures t in SinglesOf(StatesUsed(states), |E|) ||
      (IsValidTuple(t, E, closures) &&
       exists mask :: |mask| == |SinglesOf(StatesUsed(states), |E|)| &&
         t == FromList(Picked(SinglesOf(StatesUsed(states), |E|), 0, mask)))
  {
    var items := SinglesOf(StatesUsed(states), |E|);
    var all := Tupled(Selections(items, [], 0));
    var kept := KeepValid(all, E, closures);
    assert multiset(Generated(E, states, closures)) == multiset(AddMissing(kept, items));
    assert t in multiset(AddMissing(kept, items));
    if t !in items {
      assert t in kept;
      TupledSound(items, t);
    }
  }

  /** Every generated subset is the tuple of the singles some mask picks. */
  lemma TupledSound(items: seq<Tuple>, t: Tuple)
    requires AllSingles(items) && t in Tupled(Selections(items, [], 0))
    ensures exists mask :: |mask| == |items| && t == FromList(Picked(items, 0, mask))
  {
    var all := Tupled(Selections(items, [], 0));
    var k :| 0 <= k < |all| && all[k] == t;
    var s := Selections(items, [], 0)[k];
    SelectionsSound(items, [], 0, s);
    var m :| |m| == |items| && s == [] + Picked(items, 0, m);
    assert [] + Picked(items, 0, m) == Picked(items, 0, m);
  }

  /** Every single is returned, and so is every valid tuple drawn from the singles. */
  lemma GeneratedComplete(E: seq<seq<bool>>, states: seq<char>, closures: bool, mask: seq<bool>)
    requires Components.IsMatrix(E)
    requires |mask| == |SinglesOf(StatesUsed(states), |E|)|
    ensures forall t :: t in SinglesOf(StatesUsed(states), |E|) ==> t in Generated(E, states, closures)
    ensures IsValidTuple(FromList(Picked(SinglesOf(StatesUsed(states), |E|), 0, mask)), E, closures) ==>
      FromList(Picked(SinglesOf(StatesUsed(states), |E|), 0, mask)) in Generated(E, states, closures)
  {
    var items := SinglesOf(StatesUsed(states), |E|);
    var sels := Selections(items, [], 0);
    var all := Tupled(sels);
    var kept := KeepValid(all, E, closures);
    var added := AddMissing(kept, items);
    forall t | t in added
      ensures t in Generated(E, states, closures)
    {
      assert t in multiset(added);
    }
    SelectionsComplete(items, [], 0, mask);
    assert [] + Picked(items, 0, mask) == Picked(items, 0, mask);
    var k :| 0 <= k < |sels| && sels[k] == Picked(items, 0, mask);
    assert all[k] == FromList(Picked(items, 0, mask));
  }

  /** The vertices a mask picks are vertices of the items from index on. */
  lemma {:induction false} PickedFromItems(items: seq<Tuple>, index: nat, mask: seq<bool>, x: VertexState)
    requires index <= |items| && AllSingles(items) && |mask| == |items| - index
    requires x in Picked(items, index, mask)
    ensures exists i :: index <= i < |items| && x == items[i].singles[0]
    decreases |mask|
  {
    if mask[0] && x == items[index].singles[0] {
    } else {
      PickedFromItems(items, index + 1, mask[1..], x);
    }
  }

  /** A one-vertex tuple among the enumerated subsets is one of the singles. */
  lemma SingleSelectionIsItem(items: seq<Tuple>, t: Tuple)
    requires AllSingles(items) && t in Tupled(Selections(items, [], 0)) && |t.singles| == 1
    ensures t in items
  {
    TupledSound(items, t);
    var mask :| |mask| == |items| && t == FromList(Picked(items, 0, mask));
    PickedOneIsItem(items, mask, t);
  }

  /** A mask that picks one item gives back that item. */
  lemma PickedOneIsItem(items: seq<Tuple>, mask: seq<bool>, t: Tuple)
    requires AllSingles(items) && |mask| == |items|
    requires t == FromList(Picked(items, 0, mask)) && |t.singles| == 1
    ensures t in items
  {
    var p := Picked(items, 0, mask);
    FromListOfOne(p, t);
    PickedFromItems(items, 0, mask, t.singles[0]);
    OneVertexItem(items, t);
  }

  /** A one-vertex tuple whose vertex is the vertex of some single is that single. */
  lemma OneVertexItem(items: seq<Tuple>, t: Tuple)
    requires AllSingles(items) && |t.singles| == 1
    requires exists i :: 0 <= i < |items| && t.singles[0] == items[i].singles[0]
    ensures t in items
  {
    var i :| 0 <= i < |items| && t.singles[0] == items[i].singles[0];
    assert items[i].singles == t.singles;
  }

  /** A one-vertex tuple is built from the one-vertex list it holds. */
  lemma FromListOfOne(p: seq<VertexState>, t: Tuple)
    requires t == FromList(p) && |t.singles| == 1
    ensures t.singles == p && p == [p[0]]
  {
    assert |p| == |multiset(p)| == |multiset(t.singles)| == 1;
    assert t.singles[0] in multiset(p);
    assert t.singles == [t.singles[0]];
  }

  /**
   * Every tuple generateTuples returns as written is a single, or a tuple drawn from the
   * singles whose states and locations differ: connectivity is never tested.
   */
  lemma GeneratedAsWrittenSound(E: seq<seq<bool>>, states: seq<char>, closures: bool, t: Tuple)
    requires Components.IsMatrix(E)
    requires t in GeneratedAsWritten(E, states, closures)
    ensures t in SinglesOf(StatesUsed(states), |E|) ||
      (AreStatesDifferentAsWritten(t, closures) && AreLocationsDifferent(t.singles) &&
       exists mask :: |mask| == |SinglesOf(StatesUsed(states), |E|)| &&
         t == FromList(Picked(SinglesOf(StatesUsed(states), |E|), 0, mask)))
  {
    var items := SinglesOf(StatesUsed(states), |E|);
    var kept := KeepValidAsWritten(Tupled(Selections(items, [], 0)), E, closures);
    assert t in AddMissing(kept, items);
    if t !in items {
      ValidAsWrittenCases(t, E, closures);
      TupledSound(items, t);
    }
  }

  /**
   * As written every single is returned, and so is every tuple drawn from the singles
   * whose states and locations differ, connected or not.
   */
  lemma GeneratedAsWrittenComplete(E: seq<seq<bool>>, states: seq<char>, closures: bool, mask: seq<bool>)
    requires Components.IsMatrix(E)
    requires |mask| == |SinglesOf(StatesUsed(states), |E|)|
    ensures forall t :: t in SinglesOf(StatesUsed(states), |E|) ==> t in GeneratedAsWritten(E, states, closures)
    ensures var t := FromList(Picked(SinglesOf(StatesUsed(states), |E|), 0, mask));
      AreStatesDifferentAsWritten(t, closures) && AreLocationsDifferent(t.singles) ==>
        t in GeneratedAsWritten(E, states, closures)
  {
    var items := SinglesOf(StatesUsed(states), |E|);
    var sels := Selections(items, [], 0);
    var all := Tupled(sels);
    SelectionsComplete(items, [], 0, mask);
    assert [] + Picked(items, 0, mask) == Picked(items, 0, mask);
    var k :| 0 <= k < |sels| && sels[k] == Picked(items, 0, mask);
    assert all[k] == FromList(Picked(items, 0, mask));
    ValidAsWrittenCases(all[k], E, closures);
    SinglesInAsWritten(E, states, closures);
  }

  /** As written every single is returned: the second findSingles puts back those removeIf drops. */
  lemma SinglesInAsWritten(E: seq<seq<bool>>, states: seq<char>, closures: bool)
    requires Components.IsMatrix(E)
    ensures forall t :: t in SinglesOf(StatesUsed(states), |E|) ==> t in GeneratedAsWritten(E, states, closures)
  {
    var items := SinglesOf(StatesUsed(states), |E|);
    var kept := KeepValidAsWritten(Tupled(Selections(items, [], 0)), E, closures);
    assert GeneratedAsWritten(E, states, closures) == AddMissing(kept, items);
  }

  /**
   * The intended list is contained in the list as written: the singles are in both, and a
   * larger tuple the intended check accepts passes the state and location tests.
   */
  lemma GeneratedInAsWritten(E: seq<seq<bool>>, states: seq<char>, closures: bool, t: Tuple)
    requires Components.IsMatrix(E)
    requires t in Generated(E, states, closures)
    ensures t in GeneratedAsWritten(E, states, closures)
  {
    var items := SinglesOf(StatesUsed(states), |E|);
    var all := Tupled(Selections(items, [], 0));
    var kept := KeepValid(all, E, closures);
    assert t in multiset(AddMissing(kept, items));
    SinglesInAsWritten(E, states, closures);
    if t !in items {
      assert t in all && IsValidTuple(t, E, closures);
      if |t.singles| == 1 {
        SingleSelectionIsItem(items, t);
      }
      ValidAsWrittenCases(t, E, closures);
      assert t in KeepValidAsWritten(all, E, closures);
    }
  }

  /** For SIR on three vertices, choosing I2 and S0 from the singles gives the tuple [S0, I2]. */
  lemma PathPicksPair(items: seq<Tuple>)
    requires items == SinglesOf(StatesUsed(Sir), 3)
    ensures AllSingles(items) && |items| == 6
    ensures FromList(Picked(items, 0, [false, false, true, true, false, false])) ==
      Tuple([VertexState('S', 0), VertexState('I', 2)])
  {
    SirCollapses(Sir);
    PathSingles(items);
    PickedMiddle(items, [false, false, true, true, false, false]);
    PairSorted();
  }

  /** Over I and S on three vertices the singles are I0, I1, I2, S0, S1, S2. */
  lemma PathSingles(items: seq<Tuple>)
    requires items == SinglesOf(Si, 3)
    ensures AllSingles(items) && |items| == 6
    ensures items[2].singles == [VertexState('I', 2)] && items[3].singles == [VertexState('S', 0)]
  {
    SinglesOverAt(Si, Range(3), 0, 2);
    SinglesOverAt(Si, Range(3), 1, 0);
  }

  /** new Tuple([I2, S0]) stores its vertices by location: [S0, I2]. */
  lemma PairSorted()
    ensures FromList([VertexState('I', 2), VertexState('S', 0)]) == Tuple([VertexState('S', 0), VertexState('I', 2)])
  {
    assert SortByLocation([VertexState('I', 2)]) == [VertexState('I', 2)];
  }

  /** A mask choosing only items 2 and 3 of six picks their two vertices in that order. */
  lemma PickedMiddle(items: seq<Tuple>, mask: seq<bool>)
    requires AllSingles(items) && |items| == 6 && mask == [false, false, true, true, false, false]
    ensures Picked(items, 0, mask) == [items[2].singles[0], items[3].singles[0]]
  {
    assert Picked(items, 6, mask[6..]) == [];
    assert Picked(items, 5, mask[5..]) == [];
    assert Picked(items, 4, mask[4..]) == [];
    assert Picked(items, 3, mask[3..]) == [items[3].singles[0]];
    assert Picked(items, 2, mask[2..]) == [items[2].singles[0], items[3].singles[0]];
    assert Picked(items, 1, mask[1..]) == [items[2].singles[0], items[3].singles[0]];
  }

  /**
   * On the path 0-1-2 with SIR and no closures, generateTuples as written returns the
   * disconnected pair [S0, I2], which the intended list leaves out.
   */
  lemma GeneratedAsWrittenKeepsDisconnected()
    ensures var E := [[false, true, false], [true, false, true], [false, true, false]];
      var t := Tuple([VertexState('S', 0), VertexState('I', 2)]);
      t in GeneratedAsWritten(E, Sir, false) && t !in Generated(E, Sir, false)
  {
    PairInAsWritten([[false, true, false], [true, false, true], [false, true, false]]);
    DisconnectedNotGenerated();
  }

  /** On any graph of three vertices, with SIR and no closures, the list as written holds [S0, I2]. */
  lemma PairInAsWritten(E: seq<seq<bool>>)
    requires Components.IsMatrix(E) && |E| == 3
    ensures Tuple([VertexState('S', 0), VertexState('I', 2)]) in GeneratedAsWritten(E, Sir, false)
  {
    var t := Tuple([VertexState('S', 0), VertexState('I', 2)]);
    assert Differs(t.singles[0], t.singles[1], false);
    assert AreStatesDifferentAsWritten(t, false) && AreLocationsDifferent(t.singles);
    PathPicksPair(SinglesOf(StatesUsed(Sir), |E|));
    GeneratedAsWrittenComplete(E, Sir, false, [false, false, true, true, false, false]);
  }

  /** The intended list on the path 0-1-2 leaves the pair [S0, I2] out. */
  lemma DisconnectedNotGenerated()
    ensures var E := [[false, true, false], [true, false, true], [false, true, false]];
      Tuple([VertexState('S', 0), VertexState('I', 2)]) !in Generated(E, Sir, false)
  {
    var E := [[false, true, false], [true, false, true], [false, true, false]];
    var t := Tuple([VertexState('S', 0), VertexState('I', 2)]);
    if t in Generated(E, Sir, false) {
      GeneratedSound(E, Sir, false, t);
      InSinglesOf(StatesUsed(Sir), 3, t);
      ValidAsWrittenKeepsDisconnected();
      assert false;
    }
  }

  /** As intended, the list comes out with larger tuples first. */
  lemma GeneratedDecreasing(E: seq<seq<bool>>, states: seq<char>, closures: bool)
    requires Components.IsMatrix(E)
    ensures DecreasingSize(Generated(E, states, closures))
  {
  }

  // ---------------------------------------------------------------------------
  // findNumbers
  // ---------------------------------------------------------------------------

  /** How many of the equations have exactly k vertices. */
  function CountOfSize(eqs: seq<Tuple>, k: int): nat
  {
    if eqs == [] then 0
    else CountOfSize(eqs[..|eqs| - 1], k) + (if Size(eqs[|eqs| - 1]) == k then 1 else 0)
  }

  /**
   * findNumbers: an array as long as the size of the LAST equation, whose entry k - 1
   * counts the equations of size k.  An empty list, or an equation of size 0 or larger
   * than the last one, makes an index go out of bounds.
   */
  method FindNumbers(equations: seq<Tuple>) returns (r: Result<seq<int>>)
    ensures r.Ok? <==> (equations != [] &&
      forall e :: e in equations ==> 1 <= Size(e) <= Size(equations[|equations| - 1]))
    ensures r.Ok? ==> (|r.value| == Size(equations[|equations| - 1]) &&
      forall k :: 0 <= k < |r.value| ==> r.value[k] == CountOfSize(equations, k + 1))
    ensures r.Err? ==> r.fault == IndexOutOfBounds
  {
    if equations == [] {
      return Err(IndexOutOfBounds);
    }
    var len := Size(equations[|equations| - 1]);
    var sizes := new int[len](_ => 0);
    var i := 0;
    while i < |equations|
      invariant 0 <= i <= |equations|
      invariant forall j :: 0 <= j < i ==> 1 <= Size(equations[j]) <= len
      invariant forall k :: 0 <= k < len ==> sizes[k] == CountOfSize(equations[..i], k + 1)
    {
      var index := Size(equations[i]) - 1;
      if index < 0 || index >= len {
        return Err(IndexOutOfBounds);
      }
      assert equations[..i + 1][..i] == equations[..i];
      sizes[index] := sizes[index] + 1;
      i := i + 1;
    }
    assert equations[..i] == equations;
    return Ok(sizes[..]);
  }

  /**
   * The sizes generateTuples returns run from largest to smallest, so findNumbers (which
   * reads the size of the last one) fails as soon as one tuple has two or more vertices.
   */
  lemma FindNumbersRejectsDecreasing(equations: seq<Tuple>, j: int)
    requires DecreasingSize(equations) && 0 <= j < |equations|
    requires Size(equations[j]) > Size(equations[|equations| - 1])
    ensures !(forall e :: e in equations ==> 1 <= Size(e) <= Size(equations[|equations| - 1]))
  {
    assert equations[j] in equations;
  }

  // ---------------------------------------------------------------------------
  // The Tuples object
  // ---------------------------------------------------------------------------

  class Tuples {
    var tuples: seq<Tuple>
    /** The states array; findSingles sorts it in place. */
    var states: seq<char>
    /** The graph, as its hasEdge relation on locations 0..|graph|-1. */
    const graph: seq<seq<bool>>
    const closures: bool

    predicate Valid()
      reads this
    {
      Components.IsMatrix(graph)
    }

    constructor (graph: seq<seq<bool>>, states: seq<char>, closures: bool)
      requires Components.IsMatrix(graph)
      ensures Valid() && this.graph == graph && this.states == states && this.closures == closures
      ensures tuples == []
    {
      this.graph := graph;
      this.states := states;
      this.closures := closures;
      this.tuples := [];
    }

    /**
     * findSingles: sorts the states field, collapses SIR to SI and SIRP to SIP, and
     * returns one single per state per vertex in state-major order.
     */
    method FindSingles() returns (r: seq<Tuple>)
      requires Valid()
      modifies this`states
      ensures states == SortChars(old(states))
      ensures r == SinglesOf(SingleStates(states), |graph|)
    {
      states := SortChars(states);
      var cs := SingleStates(states);
      var vertices := CollectSingles(cs, Range(|graph|));
      var verticesWeNeed := seq(|vertices|, k requires 0 <= k < |vertices| => Tuple([vertices[k]]));
      r := SortAsWritten(verticesWeNeed);
    }

    /** generateTuples(closures) */
    method GenerateTuples(closures: bool) returns (r: seq<Tuple>)
      requires Valid()
      modifies this`states
      ensures states == SortChars(old(states))
      ensures r == GeneratedAsWritten(graph, old(states), closures)
    {
      ghost var used := StatesUsed(old(states));
      var items := FindSingles();
      assert items == SinglesOf(used, |graph|);
      var all := GenerateAll(items);
      var kept := KeepValidAsWritten(all, graph, closures);
      SortCharsIdempotent(old(states));
      var singles := FindSingles();
      assert singles == items;
      r := SortAsWritten(AddMissing(kept, singles));
      assert r == GeneratedAsWritten(graph, old(states), closures);
    }

    /** getTuples: generates the list on the first call (while it is empty) and keeps it. */
    method GetTuples() returns (r: seq<Tuple>)
      requires Valid()
      modifies this`tuples, this`states
      ensures old(tuples) != [] ==> r == old(tuples) && states == old(states)
      ensures old(tuples) == [] ==> r == GeneratedAsWritten(graph, old(states), closures) && states == SortChars(old(states))
      ensures tuples == r
    {
      if tuples == [] {
        tuples := GenerateTuples(closures);
      }
      r := tuples;
    }
  }
}
