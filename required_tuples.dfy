/**
 * src/io/github/ethankelly/model/RequiredTuples.java: the tuples an epidemic model needs
 * on a contact graph.  The singles come from the states that cannot be left without
 * another vertex; each connected subgraph of the contact graph then gets one tuple per
 * walk of the same length in the model's filter graph.
 *
 * Three things genTuples calls are not part of this model, so the object holds their
 * results as constants: Graph.getVertices (taken as the locations 0..n-1, in order),
 * Graph.getCharWalks on the filter graph (`walks[k]` holds the walks with k + 1 states)
 * and PathFinder.combSearch (`subGraphs`, each a list of locations).  Vertex's
 * VertexComparator is not shown either; it is taken to order by location, like
 * Vertex.compareTo.
 */
module Required {
  import opened Wrappers
  import opened VertexStates
  import ModelTuple
  import Tuples

  // ---------------------------------------------------------------------------
  // The nested Tuple class
  // ---------------------------------------------------------------------------

  /** RequiredTuples.Tuple: compared by value, as its equals compares the vertex lists. */
  datatype Tuple = Tuple(vertices: seq<VertexState>)

  /** new Tuple(list): the list sorted by the vertex comparator. */
  function FromList(list: seq<VertexState>): (t: Tuple)
    ensures multiset(t.vertices) == multiset(list) && SortedByLocation(t.vertices)
  {
    SortPermutesAndSorts(list);
    Tuple(SortByLocation(list))
  }

  function Size(t: Tuple): nat
  {
    |t.vertices|
  }

  /** compareTo: Integer.compare(this.size(), o.size()), so smaller tuples sort first. */
  function CompareTo(t: Tuple, o: Tuple): (r: int)
    ensures r < 0 <==> Size(t) < Size(o)
    ensures r > 0 <==> Size(t) > Size(o)
  {
    if Size(t) < Size(o) then -1 else if Size(t) > Size(o) then 1 else 0
  }

  /** locationsAreDifferent: the same double loop with indexOf as model/Tuple's. */
  predicate LocationsAreDifferent(t: Tuple)
  {
    ModelTuple.LocationsAreDifferentAsWritten(t.vertices)
  }

  /**
   * On a tuple whose vertices are all different (the case indexOf reads correctly),
   * locationsAreDifferent accepts exactly the tuples with no location repeated.
   */
  lemma LocationsAreDifferentOnDistinct(t: Tuple)
    requires Distinct(t.vertices)
    ensures LocationsAreDifferent(t) <==> AreLocationsDifferent(t.vertices)
  {
    ModelTuple.LocationsAsWrittenOnDistinct(t.vertices);
  }

  /**
   * add(v) as written: both constructors leave the tuple a growable list, but `copy` is
   * built around that same list, so after v is inserted and the list re-sorted the
   * comparison sees the list against itself and reports no change.
   */
  function AddAsWritten(t: Tuple, v: VertexState): (r: (Tuple, bool))
    ensures multiset(r.0.vertices) == multiset(t.vertices) + multiset{v} && SortedByLocation(r.0.vertices)
    ensures !r.1
  {
    var grown := FromList(t.vertices + [v]);
    var copy := grown;
    (grown, grown != copy)
  }

  /** add as intended: the copy is taken before the insertion, so the list is seen to change. */
  function Add(t: Tuple, v: VertexState): (r: (Tuple, bool))
    ensures multiset(r.0.vertices) == multiset(t.vertices) + multiset{v} && SortedByLocation(r.0.vertices)
    ensures r.1 <==> r.0 != t
    ensures r.1
  {
    var copy := t;
    var grown := FromList(t.vertices + [v]);
    (grown, grown != copy)
  }

  /** add as written builds the same list as add as intended but answers false, not true. */
  lemma AddAsWrittenMisreports(t: Tuple, v: VertexState)
    ensures AddAsWritten(t, v).0 == Add(t, v).0 && !AddAsWritten(t, v).1 && Add(t, v).1
  {
  }

  /** Sizes never decrease along the list. */
  predicate AscendingSize(s: seq<Tuple>)
  {
    forall i, j :: 0 <= i < j < |s| ==> Size(s[i]) <= Size(s[j])
  }

  /** Insert x after every entry that compareTo does not put after x (the stable position). */
  function InsertAsc(s: seq<Tuple>, x: Tuple): (r: seq<Tuple>)
    ensures multiset(r) == multiset(s) + multiset{x} && |r| == |s| + 1
    ensures AscendingSize(s) ==> AscendingSize(r)
    decreases |s|, 2
  {
    if s == [] || CompareTo(s[|s| - 1], x) <= 0 then s + [x]
    else
      var init := s[..|s| - 1];
      var r := InsertAsc(init, x) + [s[|s| - 1]];
      assert s == init + [s[|s| - 1]];
      InsertAscBelow(s, x, r);
      r
  }

  lemma InsertAscBelow(s: seq<Tuple>, x: Tuple, r: seq<Tuple>)
    requires s != [] && Size(s[|s| - 1]) > Size(x)
    requires r == InsertAsc(s[..|s| - 1], x) + [s[|s| - 1]]
    ensures AscendingSize(s) ==> AscendingSize(r)
    decreases |s|, 1
  {
    var init := s[..|s| - 1];
    var front := InsertAsc(init, x);
    if AscendingSize(s) {
      assert AscendingSize(init);
      forall k | 0 <= k < |front|
        ensures Size(front[k]) <= Size(s[|s| - 1])
      {
        InsertAscMember(init, x, front[k]);
        if front[k] != x {
          var m :| 0 <= m < |init| && init[m] == front[k];
          assert s[m] == front[k];
        }
      }
      assert AscendingSize(front);
    }
  }

  /** An entry of the list with x inserted is x or an entry of the list. */
  lemma InsertAscMember(s: seq<Tuple>, x: Tuple, y: Tuple)
    requires y in InsertAsc(s, x)
    ensures y == x || y in s
    decreases |s|, 3
  {
    assert y in multiset(InsertAsc(s, x));
  }

  /** Collections.sort(tuples): a stable sort by ascending size. */
  function SortAsc(s: seq<Tuple>): (r: seq<Tuple>)
    ensures multiset(r) == multiset(s) && |r| == |s| && AscendingSize(r)
  {
    if s == [] then []
    else
      assert s == s[..|s| - 1] + [s[|s| - 1]];
      InsertAsc(SortAsc(s[..|s| - 1]), s[|s| - 1])
  }

  /** Stability: a list already in ascending size order, such as the singles, is left as it is. */
  lemma {:induction false} SortAscSorted(s: seq<Tuple>)
    requires AscendingSize(s)
    ensures SortAsc(s) == s
  {
    if s != [] {
      var init := s[..|s| - 1];
      assert AscendingSize(init);
      SortAscSorted(init);
      assert SortAsc(s) == InsertAsc(init, s[|s| - 1]);
      if init != [] {
        assert init[|init| - 1] == s[|s| - 2];
        assert CompareTo(init[|init| - 1], s[|s| - 1]) <= 0;
      }
      assert s == init + [s[|s| - 1]];
    }
  }

  // ---------------------------------------------------------------------------
  // findSingles
  // ---------------------------------------------------------------------------

  /** List.remove(Object): drop the first occurrence of x, if any. */
  function RemoveFirst(s: seq<char>, x: char): (r: seq<char>)
    ensures x !in s ==> r == s
    ensures x in s ==> r == s[..IndexOf(s, x)] + s[IndexOf(s, x) + 1..]
  {
    if x in s then s[..IndexOf(s, x)] + s[IndexOf(s, x) + 1..] else s
  }

  /**
   * The states findSingles keeps after looking at the first k states: each state whose
   * first position has toExit 0 is removed once from a copy of the list.
   */
  function StatesToGenerate(states: seq<char>, toExit: seq<int>, k: nat): seq<char>
    requires |toExit| == |states| && k <= |states|
  {
    if k == 0 then states
    else
      var acc := StatesToGenerate(states, toExit, k - 1);
      var s := states[k - 1];
      if toExit[IndexOf(states, s)] == 0 then RemoveFirst(acc, s) else acc
  }

  /** The states, in order, whose toExit entry is not 0. */
  function Exitable(states: seq<char>, toExit: seq<int>): (r: seq<char>)
    requires |toExit| == |states|
  {
    if states == [] then []
    else
      var n := |states| - 1;
      Exitable(states[..n], toExit[..n]) + (if toExit[n] != 0 then [states[n]] else [])
  }

  lemma {:induction false} ExitableMember(states: seq<char>, toExit: seq<int>, c: char)
    requires |toExit| == |states|
    ensures c in Exitable(states, toExit) <==> exists i :: 0 <= i < |states| && states[i] == c && toExit[i] != 0
  {
    if states != [] {
      var n := |states| - 1;
      var init, exits := states[..n], toExit[..n];
      ExitableMember(init, exits, c);
      var last := if toExit[n] != 0 then [states[n]] else [];
      assert Exitable(states, toExit) == Exitable(init, exits) + last;
      if c in Exitable(states, toExit) {
        if c in Exitable(init, exits) {
          var i :| 0 <= i < n && init[i] == c && exits[i] != 0;
          assert states[i] == c && toExit[i] != 0;
        } else {
          assert states[n] == c && toExit[n] != 0;
        }
      }
      if exists i :: 0 <= i < |states| && states[i] == c && toExit[i] != 0 {
        var i :| 0 <= i < |states| && states[i] == c && toExit[i] != 0;
        if i < n {
          assert init[i] == c && exits[i] != 0;
          assert c in Exitable(init, exits);
        } else {
          assert c in last;
        }
      }
    }
  }

  /** The first loop of findSingles: a copy of the states loses each one whose toExit is 0. */
  method StatesToGenerateFor(states: seq<char>, toExit: seq<int>) returns (kept: seq<char>)
    requires |toExit| == |states|
    ensures kept == StatesToGenerate(states, toExit, |states|)
  {
    kept := states;
    var k := 0;
    while k < |states|
      invariant 0 <= k <= |states|
      invariant kept == StatesToGenerate(states, toExit, k)
    {
      var state := states[k];
      var i := IndexOf(states, state);
      if toExit[i] == 0 {
        kept := RemoveFirst(kept, state);
      }
      k := k + 1;
    }
  }

  /** The second loop of findSingles: one single-vertex tuple per single, in order. */
  method SingleTuples(singles: seq<VertexState>) returns (r: seq<Tuple>)
    ensures r == Singletons(singles)
  {
    r := [];
    var j := 0;
    while j < |singles|
      invariant 0 <= j <= |singles| && r == Singletons(singles[..j])
    {
      r := r + [Tuple([singles[j]])];
      j := j + 1;
    }
    assert singles[..j] == singles;
  }

  /** Removing s where it first occurs, right after a prefix that lacks it. */
  lemma RemoveFirstAfter(kept: seq<char>, s: char, rest: seq<char>)
    requires s !in kept
    ensures RemoveFirst(kept + [s] + rest, s) == kept + rest
  {
    var acc := kept + [s] + rest;
    assert acc[|kept|] == s;
    assert acc[..|kept|] == kept;
    assert IndexOf(acc, s) == |kept|;
    assert acc[|kept| + 1..] == rest;
  }

  lemma ExitableStep(states: seq<char>, toExit: seq<int>, k: nat)
    requires |toExit| == |states| && 0 < k <= |states|
    ensures Exitable(states[..k], toExit[..k]) ==
      Exitable(states[..k - 1], toExit[..k - 1]) + (if toExit[k - 1] != 0 then [states[k - 1]] else [])
  {
    assert states[..k][..k - 1] == states[..k - 1] && toExit[..k][..k - 1] == toExit[..k - 1];
  }

  /** One step of findSingles' loop, once the copy is the kept prefix and the rest from s on. */
  lemma StatesToGenerateCase(states: seq<char>, toExit: seq<int>, k: nat, kept: seq<char>)
    requires |toExit| == |states| && 0 < k <= |states| && Distinct(states)
    requires StatesToGenerate(states, toExit, k - 1) == kept + states[k - 1..]
    requires states[k - 1] !in kept
    ensures StatesToGenerate(states, toExit, k) ==
      kept + (if toExit[k - 1] != 0 then [states[k - 1]] else []) + states[k..]
  {
    var s := states[k - 1];
    var prev := StatesToGenerate(states, toExit, k - 1);
    IndexOfDistinct(states, k - 1);
    assert states[k - 1..] == [s] + states[k..];
    assert (kept + [s]) + states[k..] == kept + ([s] + states[k..]);
    if toExit[k - 1] == 0 {
      RemoveFirstAfter(kept, s, states[k..]);
    }
  }

  /** With no state listed twice, after k steps the copy is the kept prefix followed by the untouched rest. */
  lemma {:induction false} StatesToGenerateStep(states: seq<char>, toExit: seq<int>, k: nat)
    requires |toExit| == |states| && k <= |states| && Distinct(states)
    ensures StatesToGenerate(states, toExit, k) == Exitable(states[..k], toExit[..k]) + states[k..]
  {
    if k == 0 {
      assert states[..0] == [] && states[0..] == states;
    } else {
      StatesToGenerateStep(states, toExit, k - 1);
      ExitableStep(states, toExit, k);
      var kept := Exitable(states[..k - 1], toExit[..k - 1]);
      ExitableMember(states[..k - 1], toExit[..k - 1], states[k - 1]);
      StatesToGenerateCase(states, toExit, k, kept);
    }
  }

  /** With distinct states, findSingles keeps exactly the states whose toExit is not 0, in order. */
  lemma StatesToGenerateDistinct(states: seq<char>, toExit: seq<int>)
    requires |toExit| == |states| && Distinct(states)
    ensures StatesToGenerate(states, toExit, |states|) == Exitable(states, toExit)
    ensures forall c :: c in StatesToGenerate(states, toExit, |states|) <==>
      exists i :: 0 <= i < |states| && states[i] == c && toExit[i] != 0
  {
    StatesToGenerateStep(states, toExit, |states|);
    assert states[..|states|] == states && toExit[..|toExit|] == toExit;
    assert states[|states|..] == [];
    forall c {
      ExitableMember(states, toExit, c);
    }
  }

  /** The SIR model of the repository's tests (toExit {2, 1, 0}) keeps S and I. */
  lemma SirStatesToGenerate()
    ensures StatesToGenerate("SIR", [2, 1, 0], 3) == "SI"
  {
    var states := "SIR";
    assert Distinct(states);
    StatesToGenerateDistinct(states, [2, 1, 0]);
    assert states[..2] == "SI" && states[..1] == "S";
    assert [2, 1, 0][..2] == [2, 1] && [2, 1, 0][..1] == [2];
  }

  /** One single-vertex tuple per entry. */
  function Singletons(vs: seq<VertexState>): (r: seq<Tuple>)
    ensures |r| == |vs| && forall k :: 0 <= k < |vs| ==> r[k] == Tuple([vs[k]])
  {
    seq(|vs|, k requires 0 <= k < |vs| => Tuple([vs[k]]))
  }

  /** The list findSingles returns. */
  function SinglesSpec(states: seq<char>, toExit: seq<int>, n: nat): seq<Tuple>
    requires |toExit| == |states|
  {
    SortAsc(Singletons(SinglesOver(StatesToGenerate(states, toExit, |states|), Range(n))))
  }

  /** The sort in findSingles changes nothing: every single has one vertex. */
  lemma SinglesUnsorted(states: seq<char>, toExit: seq<int>, n: nat)
    requires |toExit| == |states|
    ensures SinglesSpec(states, toExit, n) == Singletons(SinglesOver(StatesToGenerate(states, toExit, |states|), Range(n)))
  {
    SortAscSorted(Singletons(SinglesOver(StatesToGenerate(states, toExit, |states|), Range(n))));
  }

  /** For SIR there are two singles per vertex, S and I at every location. */
  lemma SirSingles(n: nat)
    ensures |SinglesSpec("SIR", [2, 1, 0], n)| == 2 * n
    ensures forall t :: t in SinglesSpec("SIR", [2, 1, 0], n) <==>
      exists v :: 0 <= v < n && (t == Tuple([VertexState('S', v)]) || t == Tuple([VertexState('I', v)]))
  {
    SirStatesToGenerate();
    SinglesUnsorted("SIR", [2, 1, 0], n);
    forall t
      ensures t in Singletons(SinglesOver("SI", Range(n))) <==>
        exists v :: 0 <= v < n && (t == Tuple([VertexState('S', v)]) || t == Tuple([VertexState('I', v)]))
    {
      if t in Singletons(SinglesOver("SI", Range(n))) {
        SirSingleOf(n, t);
      }
      if exists v :: 0 <= v < n && (t == Tuple([VertexState('S', v)]) || t == Tuple([VertexState('I', v)])) {
        var v :| 0 <= v < n && (t == Tuple([VertexState('S', v)]) || t == Tuple([VertexState('I', v)]));
        if t == Tuple([VertexState('S', v)]) {
          SirSingleIn(n, 0, v);
        } else {
          SirSingleIn(n, 1, v);
        }
      }
    }
  }

  /** Every single of SIR holds S or I at one of the vertices. */
  lemma SirSingleOf(n: nat, t: Tuple)
    requires t in Singletons(SinglesOver("SI", Range(n)))
    ensures exists v :: 0 <= v < n && (t == Tuple([VertexState('S', v)]) || t == Tuple([VertexState('I', v)]))
  {
    var vs := SinglesOver("SI", Range(n));
    var k :| 0 <= k < |vs| && Singletons(vs)[k] == t;
    InSinglesOver("SI", Range(n), vs[k]);
    var v := vs[k].location;
    assert 0 <= v < n;
    assert t == Tuple([VertexState('S', v)]) || t == Tuple([VertexState('I', v)]);
  }

  /** State "SI"[i] at vertex v is the single at position i * n + v. */
  lemma SirSingleIn(n: nat, i: int, v: int)
    requires 0 <= i < 2 && 0 <= v < n
    ensures Tuple([VertexState("SI"[i], v)]) in Singletons(SinglesOver("SI", Range(n)))
  {
    var vs := SinglesOver("SI", Range(n));
    SinglesOverAt("SI", Range(n), i, v);
    assert Singletons(vs)[i * n + v] == Tuple([VertexState("SI"[i], v)]);
  }

  /** Singles of distinct states over distinct vertices are distinct. */
  lemma {:induction false} SinglesOverDistinct(cs: seq<char>, vs: seq<int>)
    requires Distinct(cs) && Distinct(vs)
    ensures Distinct(SinglesOver(cs, vs))
  {
    if cs != [] {
      var row := seq(|vs|, k requires 0 <= k < |vs| => VertexState(cs[0], vs[k]));
      var rest := SinglesOver(cs[1..], vs);
      assert Distinct(cs[1..]);
      SinglesOverDistinct(cs[1..], vs);
      forall x | x in row
        ensures x !in rest
      {
        InSinglesOver(cs[1..], vs, x);
        assert cs[0] !in cs[1..];
      }
      DistinctConcat(row, rest);
    }
  }

  // ---------------------------------------------------------------------------
  // genTuples
  // ---------------------------------------------------------------------------

  /** charWalks.get(sub.size() - 1): the walks with as many states as the subgraph has vertices. */
  function WalksFor(sub: seq<int>, walks: seq<seq<seq<char>>>): seq<seq<char>>
    requires 1 <= |sub| <= |walks|
  {
    walks[|sub| - 1]
  }

  /** The subgraph has a walk length to look up, and every such walk covers the subgraph. */
  predicate SubGraphFits(sub: seq<int>, walks: seq<seq<seq<char>>>)
  {
    1 <= |sub| <= |walks| &&
    forall j :: 0 <= j < |WalksFor(sub, walks)| ==> |sub| <= |WalksFor(sub, walks)[j]|
  }

  /** No list index in genTuples goes out of bounds. */
  predicate WellFormed(subGraphs: seq<seq<int>>, walks: seq<seq<seq<char>>>)
  {
    forall k :: 0 <= k < |subGraphs| ==> SubGraphFits(subGraphs[k], walks)
  }

  /** The vertex list for one subgraph and one walk: the i-th vertex takes the i-th state. */
  function Combine(sub: seq<int>, walk: seq<char>): (r: seq<VertexState>)
    requires |sub| <= |walk|
    ensures |r| == |sub| && forall i :: 0 <= i < |sub| ==> r[i] == VertexState(walk[i], sub[i])
  {
    seq(|sub|, i requires 0 <= i < |sub| => VertexState(walk[i], sub[i]))
  }

  /** The lists made for one subgraph, one per walk. */
  function ForSubGraph(sub: seq<int>, ws: seq<seq<char>>): (r: seq<seq<VertexState>>)
    requires forall j :: 0 <= j < |ws| ==> |sub| <= |ws[j]|
    ensures |r| == |ws| && forall j :: 0 <= j < |ws| ==> r[j] == Combine(sub, ws[j])
  {
    if ws == [] then [] else ForSubGraph(sub, ws[..|ws| - 1]) + [Combine(sub, ws[|ws| - 1])]
  }

  /** tuplesToMake after the nested loops. */
  function ToMake(subGraphs: seq<seq<int>>, walks: seq<seq<seq<char>>>): seq<seq<VertexState>>
    requires WellFormed(subGraphs, walks)
  {
    if subGraphs == [] then []
    else
      var sub := subGraphs[|subGraphs| - 1];
      assert SubGraphFits(sub, walks);
      ToMake(subGraphs[..|subGraphs| - 1], walks) + ForSubGraph(sub, WalksFor(sub, walks))
  }

  /** x is the list made for some connected subgraph and some walk of its length. */
  predicate IsMade(subGraphs: seq<seq<int>>, walks: seq<seq<seq<char>>>, x: seq<VertexState>)
    requires WellFormed(subGraphs, walks)
  {
    exists a, b :: 0 <= a < |subGraphs| && 0 <= b < |WalksFor(subGraphs[a], walks)| &&
      x == Combine(subGraphs[a], WalksFor(subGraphs[a], walks)[b])
  }

  /** One list per connected subgraph and walk of its length, and nothing else. */
  lemma {:induction false} InToMake(subGraphs: seq<seq<int>>, walks: seq<seq<seq<char>>>, x: seq<VertexState>)
    requires WellFormed(subGraphs, walks)
    ensures x in ToMake(subGraphs, walks) <==> IsMade(subGraphs, walks, x)
  {
    if subGraphs != [] {
      var init := subGraphs[..|subGraphs| - 1];
      var sub := subGraphs[|subGraphs| - 1];
      assert WellFormed(init, walks) by {
        forall k | 0 <= k < |init| ensures SubGraphFits(init[k], walks) {
          assert init[k] == subGraphs[k];
        }
      }
      assert SubGraphFits(sub, walks);
      InToMake(init, walks, x);
      IsMadeSnoc(subGraphs, walks, x);
    }
  }

  /** Made for one of the subgraphs: made for one of the earlier ones, or for the last. */
  lemma IsMadeSnoc(subGraphs: seq<seq<int>>, walks: seq<seq<seq<char>>>, x: seq<VertexState>)
    requires WellFormed(subGraphs, walks) && subGraphs != []
    ensures var init := subGraphs[..|subGraphs| - 1];
            var sub := subGraphs[|subGraphs| - 1];
            WellFormed(init, walks) && SubGraphFits(sub, walks) &&
            (IsMade(subGraphs, walks, x) <==> IsMade(init, walks, x) || x in ForSubGraph(sub, WalksFor(sub, walks)))
  {
    var init := subGraphs[..|subGraphs| - 1];
    var sub := subGraphs[|subGraphs| - 1];
    assert WellFormed(init, walks) by {
      forall k | 0 <= k < |init| ensures SubGraphFits(init[k], walks) {
        assert init[k] == subGraphs[k];
      }
    }
    assert SubGraphFits(sub, walks);
    var last := ForSubGraph(sub, WalksFor(sub, walks));
    if IsMade(init, walks, x) {
      var a, b :| 0 <= a < |init| && 0 <= b < |WalksFor(init[a], walks)| &&
        x == Combine(init[a], WalksFor(init[a], walks)[b]);
      assert init[a] == subGraphs[a];
    } else if x in last {
      var b :| 0 <= b < |last| && last[b] == x;
      assert x == Combine(subGraphs[|subGraphs| - 1], WalksFor(subGraphs[|subGraphs| - 1], walks)[b]);
    }
    if IsMade(subGraphs, walks, x) {
      var a, b :| 0 <= a < |subGraphs| && 0 <= b < |WalksFor(subGraphs[a], walks)| &&
        x == Combine(subGraphs[a], WalksFor(subGraphs[a], walks)[b]);
      if a < |init| {
        assert init[a] == subGraphs[a];
        assert IsMade(init, walks, x);
      } else {
        assert last[b] == x;
      }
    }
  }


  /** for (t : tuplesToMake) if (!tuples.contains(new Tuple(t))) tuples.add(new Tuple(t)) */
  function AddNew(acc: seq<Tuple>, lists: seq<seq<VertexState>>): (r: seq<Tuple>)
    ensures |r| >= |acc| && r[..|acc|] == acc
    decreases |lists|
  {
    if lists == [] then acc
    else
      var t := FromList(lists[0]);
      var next := if t in acc then acc else acc + [t];
      assert next[..|acc|] == acc;
      AddNew(next, lists[1..])
  }

  /** The tuples added are exactly the tuples of the lists not already there. */
  lemma {:induction false} AddNewMembers(acc: seq<Tuple>, lists: seq<seq<VertexState>>, t: Tuple)
    ensures t in AddNew(acc, lists) <==> t in acc || exists k :: 0 <= k < |lists| && t == FromList(lists[k])
    decreases |lists|
  {
    if lists != [] {
      var u := FromList(lists[0]);
      var next := if u in acc then acc else acc + [u];
      AddNewMembers(next, lists[1..], t);
      if exists k :: 0 <= k < |lists[1..]| && t == FromList(lists[1..][k]) {
        var k :| 0 <= k < |lists[1..]| && t == FromList(lists[1..][k]);
        assert t == FromList(lists[k + 1]);
      }
      if exists k :: 0 <= k < |lists| && t == FromList(lists[k]) {
        var k :| 0 <= k < |lists| && t == FromList(lists[k]);
        if k > 0 {
          assert t == FromList(lists[1..][k - 1]);
        }
      }
    }
  }

  /** contains keeps every tuple out that is already in the list. */
  lemma {:induction false} AddNewDistinct(acc: seq<Tuple>, lists: seq<seq<VertexState>>)
    requires Distinct(acc)
    ensures Distinct(AddNew(acc, lists))
    decreases |lists|
  {
    if lists != [] {
      var u := FromList(lists[0]);
      var next := if u in acc then acc else acc + [u];
      if u !in acc {
        DistinctConcat(acc, [u]);
      }
      AddNewDistinct(next, lists[1..]);
    }
  }

  /** The list genTuples returns when no index goes out of bounds. */
  function Generated(singles: seq<Tuple>, subGraphs: seq<seq<int>>, walks: seq<seq<seq<char>>>): seq<Tuple>
    requires WellFormed(subGraphs, walks)
  {
    SortAsc(AddNew(singles, ToMake(subGraphs, walks)))
  }

  /**
   * genTuples keeps every single, adds one tuple per connected subgraph and walk of the
   * same length (its vertices sorted by location), and holds nothing else.
   */
  lemma GeneratedMembers(singles: seq<Tuple>, subGraphs: seq<seq<int>>, walks: seq<seq<seq<char>>>, t: Tuple)
    requires WellFormed(subGraphs, walks)
    ensures t in Generated(singles, subGraphs, walks) <==>
      t in singles || exists x :: IsMade(subGraphs, walks, x) && t == FromList(x)
  {
    var made := ToMake(subGraphs, walks);
    var added := AddNew(singles, made);
    assert t in multiset(Generated(singles, subGraphs, walks)) <==> t in multiset(added);
    AddNewMembers(singles, made, t);
    if exists k :: 0 <= k < |made| && t == FromList(made[k]) {
      var k :| 0 <= k < |made| && t == FromList(made[k]);
      InToMake(subGraphs, walks, made[k]);
    }
    if exists x :: IsMade(subGraphs, walks, x) && t == FromList(x) {
      var x :| IsMade(subGraphs, walks, x) && t == FromList(x);
      InToMake(subGraphs, walks, x);
      var k :| 0 <= k < |made| && made[k] == x;
    }
  }

  /** The singles come first in the list before sorting, nothing appears twice, and the result runs by ascending size. */
  lemma GeneratedShape(singles: seq<Tuple>, subGraphs: seq<seq<int>>, walks: seq<seq<seq<char>>>)
    requires WellFormed(subGraphs, walks)
    ensures Distinct(singles) ==> Distinct(Generated(singles, subGraphs, walks))
    ensures AscendingSize(Generated(singles, subGraphs, walks))
    ensures |Generated(singles, subGraphs, walks)| >= |singles|
  {
    var added := AddNew(singles, ToMake(subGraphs, walks));
    if Distinct(singles) {
      AddNewDistinct(singles, ToMake(subGraphs, walks));
      DistinctPermutation(added, Generated(singles, subGraphs, walks));
    }
  }

  // ---------------------------------------------------------------------------
  // findNumbers
  // ---------------------------------------------------------------------------

  function AsTuplesTuple(t: Tuple): Tuples.Tuple
  {
    Tuples.Tuple(t.vertices)
  }

  /** Every equation has between one vertex and as many as the last one. */
  predicate SizesFit(equations: seq<Tuple>)
  {
    equations != [] &&
    forall i :: 0 <= i < |equations| ==> 1 <= Size(equations[i]) <= Size(equations[|equations| - 1])
  }

  /** findNumbers: the same code as Tuples.findNumbers, on this file's tuples. */
  method FindNumbers(equations: seq<Tuple>) returns (r: Result<seq<int>>)
    ensures r.Ok? <==> SizesFit(equations)
    ensures r.Ok? ==> (|r.value| == Size(equations[|equations| - 1]) &&
      forall k :: 0 <= k < |r.value| ==> r.value[k] == |set i | 0 <= i < |equations| && Size(equations[i]) == k + 1|)
    ensures r.Err? ==> r.fault == IndexOutOfBounds
  {
    var eqs := seq(|equations|, i requires 0 <= i < |equations| => AsTuplesTuple(equations[i]));
    assert forall i :: 0 <= i < |equations| ==> Tuples.Size(eqs[i]) == Size(equations[i]);
    ghost var fitT := eqs != [] && forall e :: e in eqs ==> 1 <= Tuples.Size(e) <= Tuples.Size(eqs[|eqs| - 1]);
    assert fitT <==> SizesFit(equations) by {
      if SizesFit(equations) {
        forall e | e in eqs ensures 1 <= Tuples.Size(e) <= Tuples.Size(eqs[|eqs| - 1]) {
          var i :| 0 <= i < |eqs| && eqs[i] == e;
        }
      }
      if fitT {
        forall i | 0 <= i < |equations| ensures 1 <= Size(equations[i]) <= Size(equations[|equations| - 1]) {
          assert eqs[i] in eqs;
        }
      }
    }
    r := Tuples.FindNumbers(eqs);
    if r.Ok? {
      forall k | 0 <= k < |r.value|
        ensures r.value[k] == |set i | 0 <= i < |equations| && Size(equations[i]) == k + 1|
      {
        CountOfSizeIsSet(eqs, k + 1);
        assert (set i | 0 <= i < |eqs| && Tuples.Size(eqs[i]) == k + 1) ==
               (set i | 0 <= i < |equations| && Size(equations[i]) == k + 1);
      }
    }
  }

  /** CountOfSize counts the positions holding a tuple of that size. */
  lemma {:induction false} CountOfSizeIsSet(eqs: seq<Tuples.Tuple>, k: int)
    ensures Tuples.CountOfSize(eqs, k) == |set i | 0 <= i < |eqs| && Tuples.Size(eqs[i]) == k|
  {
    if eqs != [] {
      var n := |eqs| - 1;
      CountOfSizeIsSet(eqs[..n], k);
      var before := set i | 0 <= i < n && Tuples.Size(eqs[..n][i]) == k;
      var all := set i | 0 <= i < |eqs| && Tuples.Size(eqs[i]) == k;
      if Tuples.Size(eqs[n]) == k {
        assert all == before + {n};
      } else {
        assert all == before;
      }
    }
  }

  /**
   * genTuples sorts by ascending size, so on its output findNumbers succeeds as soon as
   * no tuple is empty.
   */
  lemma FindNumbersAcceptsAscending(equations: seq<Tuple>)
    requires equations != [] && AscendingSize(equations)
    requires forall i :: 0 <= i < |equations| ==> 1 <= Size(equations[i])
    ensures SizesFit(equations)
  {
  }

  // ---------------------------------------------------------------------------
  // The loops of genTuples
  // ---------------------------------------------------------------------------

  /** The innermost loop: the i-th vertex of the subgraph in the i-th state of the walk. */
  method MakeOne(sub: seq<int>, walk: seq<char>) returns (r: Result<seq<VertexState>>)
    ensures r.Ok? <==> |sub| <= |walk|
    ensures r.Ok? ==> r.value == Combine(sub, walk)
    ensures r.Err? ==> r.fault == IndexOutOfBounds
  {
    var tupleToMake: seq<VertexState> := [];
    var i := 0;
    while i < |sub|
      invariant 0 <= i <= |sub| && i <= |walk|
      invariant tupleToMake == seq(i, m requires 0 <= m < i && m < |walk| => VertexState(walk[m], sub[m]))
    {
      if i >= |walk| {
        return Err(IndexOutOfBounds);
      }
      tupleToMake := tupleToMake + [VertexState(walk[i], sub[i])];
      i := i + 1;
    }
    return Ok(tupleToMake);
  }

  /** The loop over the walks of one subgraph's length. */
  method MakeForSubGraph(sub: seq<int>, walks: seq<seq<seq<char>>>) returns (r: Result<seq<seq<VertexState>>>)
    ensures r.Ok? <==> SubGraphFits(sub, walks)
    ensures r.Ok? ==> r.value == ForSubGraph(sub, WalksFor(sub, walks))
    ensures r.Err? ==> r.fault == IndexOutOfBounds
  {
    if |sub| - 1 < 0 || |sub| - 1 >= |walks| {
      return Err(IndexOutOfBounds);
    }
    var ws := walks[|sub| - 1];
    var made: seq<seq<VertexState>> := [];
    var b := 0;
    while b < |ws|
      invariant 0 <= b <= |ws| && forall j :: 0 <= j < b ==> |sub| <= |ws[j]|
      invariant made == ForSubGraph(sub, ws[..b])
    {
      var one := MakeOne(sub, ws[b]);
      if one.Err? {
        assert |WalksFor(sub, walks)[b]| < |sub|;
        return Err(one.fault);
      }
      assert ws[..b + 1][..b] == ws[..b];
      made := made + [one.value];
      b := b + 1;
    }
    assert ws[..b] == ws;
    return Ok(made);
  }

  /** The two outer loops: tuplesToMake, or the index error one of them runs into. */
  method MakeAll(subGraphs: seq<seq<int>>, walks: seq<seq<seq<char>>>) returns (r: Result<seq<seq<VertexState>>>)
    ensures r.Ok? <==> WellFormed(subGraphs, walks)
    ensures r.Ok? ==> r.value == ToMake(subGraphs, walks)
    ensures r.Err? ==> r.fault == IndexOutOfBounds
  {
    var tuplesToMake: seq<seq<VertexState>> := [];
    var a := 0;
    while a < |subGraphs|
      invariant 0 <= a <= |subGraphs| && WellFormed(subGraphs[..a], walks)
      invariant tuplesToMake == ToMake(subGraphs[..a], walks)
    {
      var part := MakeForSubGraph(subGraphs[a], walks);
      if part.Err? {
        NotWellFormed(subGraphs, walks, a);
        return Err(part.fault);
      }
      ghost var done := subGraphs[..a + 1];
      assert done[..a] == subGraphs[..a];
      assert WellFormed(done, walks) by {
        forall k | 0 <= k < |done|
          ensures SubGraphFits(done[k], walks)
        {
          if k < a {
            assert done[k] == subGraphs[..a][k];
          }
        }
      }
      tuplesToMake := tuplesToMake + part.value;
      a := a + 1;
    }
    assert subGraphs[..a] == subGraphs;
    return Ok(tuplesToMake);
  }

  /** The last loop: add each new tuple unless the list already contains it. */
  method AddEach(singles: seq<Tuple>, tuplesToMake: seq<seq<VertexState>>) returns (r: seq<Tuple>)
    ensures r == AddNew(singles, tuplesToMake)
  {
    r := singles;
    var c := 0;
    while c < |tuplesToMake|
      invariant 0 <= c <= |tuplesToMake|
      invariant AddNew(r, tuplesToMake[c..]) == AddNew(singles, tuplesToMake)
    {
      assert tuplesToMake[c..][1..] == tuplesToMake[c + 1..];
      var tuple := FromList(tuplesToMake[c]);
      if tuple !in r {
        r := r + [tuple];
      }
      c := c + 1;
    }
    assert tuplesToMake[c..] == [];
  }

  // ---------------------------------------------------------------------------
  // The RequiredTuples object
  // ---------------------------------------------------------------------------

  class RequiredTuples {
    /** The number of vertices of the contact graph. */
    const n: nat
    /** The model's states and their toExit numbers. */
    const states: seq<char>
    const toExit: seq<int>
    /** filter.getCharWalks(n): walks[k] lists the walks with k + 1 states. */
    const walks: seq<seq<seq<char>>>
    /** combSearch(): the connected subgraphs, as lists of locations. */
    const subGraphs: seq<seq<int>>
    const closures: bool
    /** The cached tuples; [] stands for both a null and an empty list, which getTuples treats alike. */
    var tuples: seq<Tuple>

    /** ModelParams' constructor makes toExit as long as the states. */
    predicate Valid()
      reads this
    {
      |toExit| == |states|
    }

    /**
     * The constructor calls getTuples, which generates the tuples straight away (genTuples
     * throws when an index goes out of bounds, so no object exists then).
     */
    constructor (n: nat, states: seq<char>, toExit: seq<int>, walks: seq<seq<seq<char>>>,
                 subGraphs: seq<seq<int>>, closures: bool)
      requires |toExit| == |states| && WellFormed(subGraphs, walks)
      ensures Valid() && this.n == n && this.states == states && this.toExit == toExit
      ensures this.walks == walks && this.subGraphs == subGraphs && this.closures == closures
      ensures tuples == Generated(SinglesSpec(states, toExit, n), subGraphs, walks)
    {
      this.n := n;
      this.states := states;
      this.toExit := toExit;
      this.walks := walks;
      this.subGraphs := subGraphs;
      this.closures := closures;
      tuples := [];
      new;
      var r := GenTuples();
    }

    /** findSingles: drop the states with toExit 0, then one single per state per vertex. */
    method FindSingles() returns (r: seq<Tuple>)
      requires Valid()
      ensures r == SinglesSpec(states, toExit, n)
    {
      var statesToGenerateFor := StatesToGenerateFor(states, toExit);
      var singles := CollectSingles(statesToGenerateFor, Range(n));
      var verticesWeNeed := SingleTuples(singles);
      r := SortAsc(verticesWeNeed);
    }

    /**
     * genTuples: the singles, then one tuple per connected subgraph and walk of its
     * length, each added once, sorted by ascending size and stored in the field.  An index
     * out of bounds throws and leaves the field as it was.
     */
    method GenTuples() returns (r: Result<seq<Tuple>>)
      requires Valid()
      modifies this
      ensures r.Ok? <==> WellFormed(subGraphs, walks)
      ensures r.Ok? ==> r.value == Generated(SinglesSpec(states, toExit, n), subGraphs, walks) && tuples == r.value
      ensures r.Err? ==> r.fault == IndexOutOfBounds && tuples == old(tuples)
    {
      var singles := FindSingles();
      var made := MakeAll(subGraphs, walks);
      if made.Err? {
        return Err(made.fault);
      }
      var result := AddEach(singles, made.value);
      result := SortAsc(result);
      tuples := result;
      return Ok(result);
    }

    /** getTuples: generate only when the cache is null or empty. */
    method GetTuples() returns (r: Result<seq<Tuple>>)
      requires Valid()
      modifies this
      ensures old(tuples) != [] ==> r == Ok(old(tuples)) && tuples == old(tuples)
      ensures old(tuples) == [] ==> (r.Ok? <==> WellFormed(subGraphs, walks))
      ensures old(tuples) == [] && r.Ok? ==>
        r.value == Generated(SinglesSpec(states, toExit, n), subGraphs, walks) && tuples == r.value
      ensures r.Err? ==> tuples == old(tuples)
    {
      if tuples == [] {
        r := GenTuples();
      } else {
        r := Ok(tuples);
      }
    }
  }

  /** A subgraph that does not fit makes the whole list ill-formed. */
  lemma NotWellFormed(subGraphs: seq<seq<int>>, walks: seq<seq<seq<char>>>, a: int)
    requires 0 <= a < |subGraphs| && !SubGraphFits(subGraphs[a], walks)
    ensures !WellFormed(subGraphs, walks)
  {
  }
}
