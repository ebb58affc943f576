/**
 * src/io/github/ethankelly/model/Model.java: the states of a compartmental model with a
 * transition matrix and a rate matrix, both |states| x |states|.  addTransition looks
 * the two states up by a loop that keeps the LAST matching position, then writes one
 * cell of each matrix and stores the matrices back.
 *
 * Rates are Java doubles that are only stored, never computed with; they are `real`
 * here.  The state-lookup loop and the matrix helpers are shared with ModelParams.
 */
module CompartmentModel {

  /** The position the state-lookup loop ends with: the last index holding c, or -1. */
  function LastIndexOf(states: seq<char>, c: char): (r: int)
    ensures -1 <= r < |states|
    ensures r == -1 <==> c !in states
    ensures r >= 0 ==> states[r] == c && forall i :: r < i < |states| ==> states[i] != c
  {
    if states == [] then -1
    else if states[|states| - 1] == c then |states| - 1
    else
      var r := LastIndexOf(states[..|states| - 1], c);
      assert states == states[..|states| - 1] + [states[|states| - 1]];
      r
  }

  /**
   * The loop of addTransition: indexFrom and indexTo start at -1 and take every index
   * whose state matches.
   */
  method FindStates(states: seq<char>, from: char, to: char) returns (indexFrom: int, indexTo: int)
    ensures indexFrom == LastIndexOf(states, from) && indexTo == LastIndexOf(states, to)
  {
    indexFrom, indexTo := -1, -1;
    var i := 0;
    while i < |states|
      invariant 0 <= i <= |states|
      invariant indexFrom == LastIndexOf(states[..i], from) && indexTo == LastIndexOf(states[..i], to)
    {
      assert states[..i + 1][..i] == states[..i];
      if states[i] == from {
        indexFrom := i;
      }
      if states[i] == to {
        indexTo := i;
      }
      i := i + 1;
    }
    assert states[..i] == states;
  }

  /** An n x n matrix holding x everywhere: Java's zero-initialised array. */
  function Filled<T>(n: nat, x: T): (m: seq<seq<T>>)
    ensures IsSquare(m, n)
  {
    seq(n, _ => seq(n, _ => x))
  }

  predicate IsSquare<T>(m: seq<seq<T>>, n: nat)
  {
    |m| == n && forall i :: 0 <= i < n ==> |m[i]| == n
  }

  /** The matrix with cell [i][j] set to x. */
  function SetCell<T>(m: seq<seq<T>>, i: int, j: int, x: T): (r: seq<seq<T>>)
    requires 0 <= i < |m| && 0 <= j < |m[i]|
    ensures |r| == |m| && forall a :: 0 <= a < |m| ==> |r[a]| == |m[a]|
    ensures forall a, b :: 0 <= a < |m| && 0 <= b < |m[a]| ==> r[a][b] == if a == i && b == j then x else m[a][b]
  {
    m[i := m[i][j := x]]
  }

  /**
   * The effect of addTransition on one matrix: when both states are known, cell
   * [last index of from][last index of to] becomes x; otherwise nothing changes.
   */
  function WithTransition<T>(states: seq<char>, m: seq<seq<T>>, from: char, to: char, x: T): (r: seq<seq<T>>)
    requires IsSquare(m, |states|)
    ensures IsSquare(r, |states|)
  {
    var f := LastIndexOf(states, from);
    var t := LastIndexOf(states, to);
    if f < 0 || t < 0 then m else SetCell(m, f, t, x)
  }

  /** Only the cell of the two known states changes, and it holds x. */
  lemma WithTransitionCells<T>(states: seq<char>, m: seq<seq<T>>, from: char, to: char, x: T)
    requires IsSquare(m, |states|)
    ensures from !in states || to !in states ==> WithTransition(states, m, from, to, x) == m
    ensures from in states && to in states ==>
              forall a, b :: 0 <= a < |states| && 0 <= b < |states| ==>
                WithTransition(states, m, from, to, x)[a][b] ==
                  if states[a] == from && states[b] == to && a == LastIndexOf(states, from) && b == LastIndexOf(states, to)
                  then x else m[a][b]
  {
  }

  class Model {
    var states: seq<char>
    var transitionMatrix: seq<seq<bool>>
    var ratesMatrix: seq<seq<real>>
    const requiresPair: seq<bool>

    /** Both matrices are |states| x |states|. */
    predicate Valid()
      reads this
    {
      IsSquare(transitionMatrix, |states|) && IsSquare(ratesMatrix, |states|)
    }

    /** Model(states, requiresPair): all-false transitions and all-zero rates. */
    constructor (states: seq<char>, requiresPair: seq<bool>)
      ensures Valid() && this.states == states && this.requiresPair == requiresPair
      ensures transitionMatrix == Filled(|states|, false) && ratesMatrix == Filled(|states|, 0.0)
    {
      this.states := states;
      this.requiresPair := requiresPair;
      transitionMatrix := Filled(|states|, false);
      ratesMatrix := Filled(|states|, 0.0);
    }

    /**
     * addTransition(from, to, rate): asserts from != to; an unknown state only prints an
     * error; otherwise the transition cell becomes true and the rate cell holds rate.
     * The (shallow) copies of both matrices are stored back in either case.
     */
    method AddTransition(from: char, to: char, rate: real)
      requires Valid() && from != to
      modifies this
      ensures Valid() && states == old(states)
      ensures transitionMatrix == WithTransition(states, old(transitionMatrix), from, to, true)
      ensures ratesMatrix == WithTransition(states, old(ratesMatrix), from, to, rate)
    {
      var transitions := transitionMatrix;
      var rates := ratesMatrix;
      var indexFrom, indexTo := FindStates(states, from, to);
      if indexFrom < 0 || indexTo < 0 {
        // UnexpectedStateException is printed and caught: nothing else happens.
      } else {
        transitions := SetCell(transitions, indexFrom, indexTo, true);
        rates := SetCell(rates, indexFrom, indexTo, rate);
      }
      transitionMatrix := transitions;
      ratesMatrix := rates;
    }
  }

  /** The transitions S -> I and I -> R among the states S, I, R. */
  predicate SirEdge(a: int, b: int)
  {
    (a == 0 && b == 1) || (a == 1 && b == 2)
  }

  /** The SIR example of Model.main: S -> I, then I -> R, gives exactly those two transitions. */
  lemma SirTransitions()
    ensures var m := WithTransition("SIR", WithTransition("SIR", Filled(3, false), 'S', 'I', true), 'I', 'R', true);
            IsSquare(m, 3) && forall a, b :: 0 <= a < 3 && 0 <= b < 3 ==> (m[a][b] <==> SirEdge(a, b))
  {
    assert LastIndexOf("SIR", 'S') == 0 && LastIndexOf("SIR", 'I') == 1 && LastIndexOf("SIR", 'R') == 2;
  }
}
