/**
 * src/io/github/ethankelly/model/ModelParams.java: the parameters of a compartmental
 * model: its states, how many neighbours each state needs to be entered and exited,
 * the rate matrix and the printable rates (arrays written in place), the transition
 * graph, and the filter graph, computed on first request and kept.
 *
 * The Graph class with directed edges that holds the transitions is not part of this
 * model: the transition graph is its |states| x |states| directed adjacency matrix,
 * addDirectedEdge(i, j) sets cell [i][j], and makeSubGraph followed by setLabels is
 * taken to give the subgraph induced on the kept vertices, in their order, labelled by
 * their states.  Its vertex at position i is taken to be vertex i.  A null printable
 * rate is None.
 */
module ModelParameters {
  import opened Wrappers
  import opened CompartmentModel

  /** The filter graph: the kept states as labels and the directed edges among them. */
  datatype Filter = Filter(labels: seq<char>, edges: seq<seq<bool>>)

  /** State i is kept when entering or leaving it needs more than one neighbour. */
  predicate Needs(toEnter: seq<int>, toExit: seq<int>, i: int)
    requires 0 <= i < |toEnter| && |toEnter| == |toExit|
  {
    toEnter[i] > 1 || toExit[i] > 1
  }

  /** The kept positions among the first n, in increasing order. */
  function Kept(toEnter: seq<int>, toExit: seq<int>, n: nat): (r: seq<nat>)
    requires n <= |toEnter| == |toExit|
    ensures forall a :: 0 <= a < |r| ==> r[a] < n && Needs(toEnter, toExit, r[a])
    ensures forall a, b :: 0 <= a < b < |r| ==> r[a] < r[b]
    ensures forall i :: 0 <= i < n && Needs(toEnter, toExit, i) ==> i in r
  {
    if n == 0 then []
    else
      var init := Kept(toEnter, toExit, n - 1);
      if Needs(toEnter, toExit, n - 1) then init + [n - 1] else init
  }

  /** The states at the given positions. */
  function LabelsAt(states: seq<char>, keep: seq<nat>): (r: seq<char>)
    requires forall a :: 0 <= a < |keep| ==> keep[a] < |states|
    ensures |r| == |keep| && forall a :: 0 <= a < |keep| ==> r[a] == states[keep[a]]
  {
    seq(|keep|, a requires 0 <= a < |keep| => states[keep[a]])
  }

  /** The directed graph induced on the given positions, renumbered in their order. */
  function Induced(m: seq<seq<bool>>, keep: seq<nat>): (r: seq<seq<bool>>)
    requires IsSquare(m, |m|) && forall a :: 0 <= a < |keep| ==> keep[a] < |m|
    ensures IsSquare(r, |keep|)
    ensures forall a, b :: 0 <= a < |keep| && 0 <= b < |keep| ==> r[a][b] == m[keep[a]][keep[b]]
  {
    seq(|keep|, a requires 0 <= a < |keep| => seq(|keep|, b requires 0 <= b < |keep| => m[keep[a]][keep[b]]))
  }

  /** The filter graph of a transition matrix. */
  function FilterOf(states: seq<char>, toEnter: seq<int>, toExit: seq<int>, m: seq<seq<bool>>): Filter
    requires |toEnter| == |states| && |toExit| == |states| && IsSquare(m, |states|)
  {
    var keep := Kept(toEnter, toExit, |states|);
    Filter(LabelsAt(states, keep), Induced(m, keep))
  }

  /** With distinct states, the lookup loop finds each state at its own position. */
  lemma LastIndexOfDistinct(states: seq<char>, i: int)
    requires 0 <= i < |states| && forall a, b :: 0 <= a < b < |states| ==> states[a] != states[b]
    ensures LastIndexOf(states, states[i]) == i
  {
    var r := LastIndexOf(states, states[i]);
    assert states[r] == states[i];
  }

  /** A state is a label of the filter graph exactly when it is kept. */
  lemma FilterLabels(states: seq<char>, toEnter: seq<int>, toExit: seq<int>, m: seq<seq<bool>>, i: int)
    requires |toEnter| == |states| && |toExit| == |states| && IsSquare(m, |states|)
    requires forall a, b :: 0 <= a < b < |states| ==> states[a] != states[b]
    requires 0 <= i < |states|
    ensures states[i] in FilterOf(states, toEnter, toExit, m).labels <==> Needs(toEnter, toExit, i)
  {
    var keep := Kept(toEnter, toExit, |states|);
    var labels := FilterOf(states, toEnter, toExit, m).labels;
    if states[i] in labels {
      var a :| 0 <= a < |labels| && labels[a] == states[i];
      assert states[keep[a]] == states[i];
      assert keep[a] == i by {
        if keep[a] < i {
        } else if keep[a] > i {
        }
      }
    }
  }

  /**
   * Between two labels of the filter graph there is an edge exactly when the transition
   * graph has one between those states.
   */
  lemma FilterEdges(states: seq<char>, toEnter: seq<int>, toExit: seq<int>, m: seq<seq<bool>>)
    requires |toEnter| == |states| && |toExit| == |states| && IsSquare(m, |states|)
    requires forall a, b :: 0 <= a < b < |states| ==> states[a] != states[b]
    ensures var f := FilterOf(states, toEnter, toExit, m);
            IsSquare(f.edges, |f.labels|) &&
            forall a, b :: 0 <= a < |f.labels| && 0 <= b < |f.labels| ==>
              f.labels[a] in states && f.labels[b] in states &&
              (f.edges[a][b] <==> m[LastIndexOf(states, f.labels[a])][LastIndexOf(states, f.labels[b])])
  {
    var keep := Kept(toEnter, toExit, |states|);
    var f := FilterOf(states, toEnter, toExit, m);
    forall a, b | 0 <= a < |f.labels| && 0 <= b < |f.labels|
      ensures f.labels[a] in states && f.labels[b] in states &&
              (f.edges[a][b] <==> m[LastIndexOf(states, f.labels[a])][LastIndexOf(states, f.labels[b])])
    {
      LastIndexOfDistinct(states, keep[a]);
      LastIndexOfDistinct(states, keep[b]);
    }
  }

  class ModelParams {
    const states: seq<char>
    const toEnter: seq<int>
    const toExit: seq<int>
    const ratesMatrix: array2<real>
    const ratesForPrinting: array2<Option<string>>
    /** The adjacency matrix of the transition graph. */
    var transitions: seq<seq<bool>>
    /** The filter graph once it has been requested. */
    var filter: Option<Filter>

    predicate Valid()
      reads this
    {
      |toEnter| == |states| && |toExit| == |states| && IsSquare(transitions, |states|) &&
      ratesMatrix.Length0 == |states| && ratesMatrix.Length1 == |states| &&
      ratesForPrinting.Length0 == |states| && ratesForPrinting.Length1 == |states|
    }

    /**
     * ModelParams(states, toEnter, toExit): asserts one entry and one exit requirement per
     * state; no transitions, zero rates, no printable rates, no filter yet.
     */
    constructor (states: seq<char>, toEnter: seq<int>, toExit: seq<int>)
      requires |toEnter| == |states| && |toExit| == |states|
      ensures Valid() && this.states == states && this.toEnter == toEnter && this.toExit == toExit
      ensures fresh(ratesMatrix) && fresh(ratesForPrinting)
      ensures transitions == Filled(|states|, false) && filter == None
      ensures forall i, j :: 0 <= i < |states| && 0 <= j < |states| ==>
                ratesMatrix[i, j] == 0.0 && ratesForPrinting[i, j] == None
    {
      this.states := states;
      this.toEnter := toEnter;
      this.toExit := toExit;
      transitions := Filled(|states|, false);
      ratesMatrix := new real[|states|, |states|]((i, j) => 0.0);
      ratesForPrinting := new Option<string>[|states|, |states|]((i, j) => None);
      filter := None;
    }

    /**
     * addTransition(from, to, symbol): asserts both states are known; records the
     * printable rate and the directed edge.
     */
    method AddSymbolTransition(from: char, to: char, symbol: string)
      requires Valid() && from in states && to in states
      modifies this, ratesForPrinting
      ensures Valid() && filter == old(filter)
      ensures transitions == WithTransition(states, old(transitions), from, to, true)
      ensures forall i, j :: 0 <= i < |states| && 0 <= j < |states| ==>
                ratesForPrinting[i, j] ==
                  if i == LastIndexOf(states, from) && j == LastIndexOf(states, to) then Some(symbol)
                  else old(ratesForPrinting[i, j])
    {
      var indexFrom, indexTo := FindStates(states, from, to);
      ratesForPrinting[indexFrom, indexTo] := Some(symbol);
      transitions := SetCell(transitions, indexFrom, indexTo, true);
    }

    /**
     * addTransition(from, to, rate): asserts from != to; an unknown state only prints an
     * error; otherwise the rate is stored and the directed edge added.
     */
    method AddTransition(from: char, to: char, rate: real)
      requires Valid() && from != to
      modifies this, ratesMatrix
      ensures Valid() && filter == old(filter)
      ensures transitions == WithTransition(states, old(transitions), from, to, true)
      ensures forall i, j :: 0 <= i < |states| && 0 <= j < |states| ==>
                ratesMatrix[i, j] ==
                  if from in states && to in states && i == LastIndexOf(states, from) && j == LastIndexOf(states, to)
                  then rate else old(ratesMatrix[i, j])
    {
      var indexFrom, indexTo := FindStates(states, from, to);
      if indexFrom < 0 || indexTo < 0 {
        // UnexpectedStateException is printed and caught: nothing changes.
      } else {
        ratesMatrix[indexFrom, indexTo] := rate;
        transitions := SetCell(transitions, indexFrom, indexTo, true);
      }
    }

    /**
     * getFilterGraph: the first call collects, in order, the states whose entry or exit
     * needs more than one neighbour and takes the transition subgraph on them; later
     * calls return that same graph.
     */
    method GetFilterGraph() returns (f: Filter)
      requires Valid()
      modifies this
      ensures Valid() && transitions == old(transitions) && filter == Some(f)
      ensures old(filter).Some? ==> f == old(filter).value
      ensures old(filter).None? ==> f == FilterOf(states, toEnter, toExit, transitions)
    {
      if filter.None? {
        var keep: seq<nat> := [];
        var labels: seq<char> := [];
        var i := 0;
        while i < |states|
          invariant 0 <= i <= |states|
          invariant keep == Kept(toEnter, toExit, i) && labels == LabelsAt(states, keep)
        {
          if toEnter[i] > 1 || toExit[i] > 1 {
            keep := keep + [i];
            labels := labels + [states[i]];
          }
          i := i + 1;
        }
        filter := Some(Filter(labels, Induced(transitions, keep)));
      }
      f := filter.value;
    }
  }

  /**
   * The SIR parameters of ModelParams.main, with the transitions S -> I and I -> R
   * (SirTransitions): S needs two neighbours to leave, I two to enter, R neither, so the
   * filter graph is S -> I.
   */
  lemma SirFilter(m: seq<seq<bool>>)
    requires IsSquare(m, 3) && forall a, b :: 0 <= a < 3 && 0 <= b < 3 ==> (m[a][b] <==> SirEdge(a, b))
    ensures var f := FilterOf("SIR", [0, 2, 1], [2, 1, 0], m);
            f.labels == "SI" && IsSquare(f.edges, 2) &&
            forall a, b :: 0 <= a < 2 && 0 <= b < 2 ==> (f.edges[a][b] <==> a == 0 && b == 1)
  {
    SirKept();
    assert LabelsAt("SIR", [0, 1]) == "SI";
  }

  /** S and I are kept, R is not. */
  lemma SirKept()
    ensures Kept([0, 2, 1], [2, 1, 0], 3) == [0, 1]
  {
    var e, x := [0, 2, 1], [2, 1, 0];
    assert Kept(e, x, 1) == [] + [0] by {
      assert Needs(e, x, 0);
    }
    assert Kept(e, x, 2) == [0] + [1] by {
      assert Needs(e, x, 1);
    }
    assert Kept(e, x, 3) == Kept(e, x, 2) by {
      assert !Needs(e, x, 2);
    }
  }
}
