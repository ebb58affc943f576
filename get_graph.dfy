/**
 * GraphGenerator.getGraph (src/io/github/ethankelly/graph/GraphGenerator.java): choose a
 * generator by the lower-cased name or number in args[1], read its integer arguments from
 * args[2], args[3], ... with parseIntegers, and build the graph.
 *
 * The outcome is a Result: a missing argument is IndexOutOfBounds, an unknown name is
 * IllegalState, and a generator's own failure is passed on.  Ok(None) stands for a
 * graph this model does not build: the Erdős–Rényi, bipartite, Eulerian and wheel
 * generators, and a negative vertex count (the generators here take a nat).
 */
module GraphByName {
  import opened Wrappers
  import ListGraph
  import opened Generators
  import PruferTree

  /** The cases of getGraph's switch, in order. */
  datatype Kind =
    | Toast | Triangle | Lollipop | SimpleGraph | ErdosRenyi | CompleteGraph | Bipartite
    | CompleteBipartite | PathGraph | BinaryTreeGraph | CycleGraph | EulerianPath
    | EulerianCycle | Wheel | StarGraph | RegularGraph | TreeGraph

  /** The labels of each case. */
  function Labels(k: Kind): seq<string>
  {
    match k
    case Toast => ["1", "toast"]
    case Triangle => ["2", "triangle"]
    case Lollipop => ["3", "lollipop"]
    case SimpleGraph => ["4", "simple"]
    case ErdosRenyi => ["5", "erdos renyi", "erdős rényi", "er"]
    case CompleteGraph => ["6", "complete"]
    case Bipartite => ["7", "bipartite"]
    case CompleteBipartite => ["8", "complete bipartite"]
    case PathGraph => ["9", "path"]
    case BinaryTreeGraph => ["10", "binary tree"]
    case CycleGraph => ["11", "cycle"]
    case EulerianPath => ["12", "eulerian path"]
    case EulerianCycle => ["13", "eulerian cycle"]
    case Wheel => ["14", "wheel"]
    case StarGraph => ["15", "star"]
    case RegularGraph => ["16", "regular"]
    case TreeGraph => ["17", "tree"]
  }

  /** How many arguments after args[1] each case reads. */
  function Arity(k: Kind): nat
  {
    match k
    case Toast => 0
    case Triangle => 0
    case Lollipop => 0
    case SimpleGraph => 2
    case ErdosRenyi => 2
    case CompleteGraph => 1
    case Bipartite => 3
    case CompleteBipartite => 2
    case PathGraph => 1
    case BinaryTreeGraph => 1
    case CycleGraph => 1
    case EulerianPath => 2
    case EulerianCycle => 2
    case Wheel => 1
    case StarGraph => 1
    case RegularGraph => 2
    case TreeGraph => 1
  }

  /** Every case, in the order of the switch. */
  const Kinds: seq<Kind> := [Toast, Triangle, Lollipop, SimpleGraph, ErdosRenyi, CompleteGraph, Bipartite,
                             CompleteBipartite, PathGraph, BinaryTreeGraph, CycleGraph, EulerianPath,
                             EulerianCycle, Wheel, StarGraph, RegularGraph, TreeGraph]

  lemma KindsComplete(k: Kind)
    ensures k in Kinds
  {
  }

  /** toLowerCase on the ASCII letters. */
  function LowerChar(c: char): char
  {
    if 'A' <= c <= 'Z' then (c as int + 32) as char else c
  }

  function Lower(s: string): string
  {
    seq(|s|, i requires 0 <= i < |s| => LowerChar(s[i]))
  }

  /** The first case among ks with the label. */
  function Find(ks: seq<Kind>, word: string): (r: Option<Kind>)
    ensures r.Some? ==> r.value in ks && word in Labels(r.value)
    ensures r.None? ==> forall i :: 0 <= i < |ks| ==> word !in Labels(ks[i])
  {
    if ks == [] then None
    else if word in Labels(ks[0]) then Some(ks[0])
    else
      var r := Find(ks[1..], word);
      assert forall i :: 1 <= i < |ks| ==> ks[i] == ks[1..][i - 1];
      r
  }

  /**
   * The switch: the first case one of whose labels is the lower-cased name; none when
   * no label is.
   */
  function KindOf(name: string): (r: Option<Kind>)
    ensures r.Some? ==> Lower(name) in Labels(r.value)
    ensures r.None? <==> forall k: Kind :: Lower(name) !in Labels(k)
  {
    var r := Find(Kinds, Lower(name));
    if r.None? then
      assert forall k: Kind :: Lower(name) !in Labels(k) by {
        forall k: Kind ensures Lower(name) !in Labels(k) {
          KindsComplete(k);
          var i :| 0 <= i < |Kinds| && Kinds[i] == k;
        }
      }
      r
    else r
  }

  /** Names as the user types them. */
  lemma ToastByName()
    ensures KindOf("Toast") == Some(Toast)
  {
    assert Lower("Toast") == "toast";
  }

  /** parseIntegers on one argument: its value, or 0 when it is not an int. */
  function ParsedOr0(s: string): int
  {
    match ParseInt(s)
    case Some(x) => x
    case None => 0
  }

  /** The integer arguments of case k. */
  function Counts(args: seq<string>, k: Kind): (c: seq<int>)
    requires |args| >= 2 + Arity(k)
    ensures |c| == Arity(k)
  {
    seq(Arity(k), i requires 0 <= i < Arity(k) => ParsedOr0(args[2 + i]))
  }

  /** The cases this model does not build, for the given arguments. */
  predicate Outside(k: Kind, c: seq<int>)
    requires |c| == Arity(k)
  {
    k in {ErdosRenyi, Bipartite, CompleteBipartite, EulerianPath, EulerianCycle, Wheel} ||
    (Arity(k) > 0 && c[0] < 0) || (k == RegularGraph && c[1] < 0)
  }

  /** The vertex count each case builds. */
  function Size(k: Kind, c: seq<int>): int
    requires |c| == Arity(k)
  {
    match k
    case Toast => 4
    case Triangle => 3
    case Lollipop => 4
    case _ => if Arity(k) > 0 then c[0] else 0
  }

  /** The edges of the fixed graphs. */
  const ToastEdges: seq<(int, int)> := [(0, 1), (0, 2), (0, 3), (1, 2), (2, 3)]
  const TriangleEdges: seq<(int, int)> := [(0, 1), (1, 2), (2, 0)]
  const LollipopEdges: seq<(int, int)> := [(0, 1), (0, 2), (0, 3), (2, 3)]

  /**
   * The graph case k builds on its integer arguments c, as the generators promise it:
   * its vertex count, its edges, its edge count and, where the generator sets one, its
   * name.  The orderings the generators draw at random are existentially bound.
   */
  ghost predicate Built(k: Kind, c: seq<int>, g: ListGraph.Graph)
    requires |c| == Arity(k) && !Outside(k, c)
    reads g
  {
    var n := Size(k, c);
    n >= 0 && g.numVertices == n && |g.adj| == n &&
    match k
    case Toast => g.name == "Toast" && g.adj == WithEdges(Empty(4), ToastEdges) && g.numEdges == 5
    case Triangle => g.name == "Triangle" && g.adj == WithEdges(Empty(3), TriangleEdges) && g.numEdges == 3
    case Lollipop => g.name == "Lollipop" && g.adj == WithEdges(Empty(4), LollipopEdges) && g.numEdges == 4
    case SimpleGraph => g.name == "Simple" && g.numEdges == c[1] && SimpleEdges(n, c[1], g.adj)
    case CompleteGraph =>
      g.name == "Complete" && g.numEdges == n * (n - 1) / 2 &&
      forall a, b :: 0 <= a < n && 0 <= b < n ==> (ListGraph.Adjacent(g.adj, a, b) <==> a != b)
    case PathGraph => g.numEdges == (if n == 0 then 0 else n - 1) && PathOf(n, g.adj)
    case BinaryTreeGraph => g.numEdges == (if n == 0 then 0 else n - 1) && BinaryTreeOf(n, g.adj)
    case CycleGraph =>
      n >= 2 && g.numEdges == n && NoLoops(CycleEdges(n)) && g.adj == WithEdges(Empty(n), CycleEdges(n))
    case StarGraph => n >= 1 && g.numEdges == n - 1 && StarOf(n, g.adj)
    case RegularGraph =>
      g.name == Show(c[1]) + "-Regular" && g.numEdges == n * c[1] / 2 && RegularOf(n, c[1], g.adj)
    case TreeGraph => g.name == "Tree" && n >= 1 && TreeOf(n, g.numEdges, g.adj)
    case _ => false
  }

  /** m edges without loops between the n vertices. */
  ghost predicate SimpleEdges(n: nat, m: int, adj: seq<seq<int>>)
  {
    exists es :: |es| == m && InRange(es, n) && NoLoops(es) && adj == WithEdges(Empty(n), es)
  }

  /** A path through every vertex once, in some order. */
  ghost predicate PathOf(n: nat, adj: seq<seq<int>>)
  {
    exists vs :: multiset(vs) == multiset(Range(n)) && InRange(PathEdges(vs), n) && NoLoops(PathEdges(vs)) &&
      adj == WithEdges(Empty(n), PathEdges(vs))
  }

  /** The heap-shaped binary tree over some order of the vertices. */
  ghost predicate BinaryTreeOf(n: nat, adj: seq<seq<int>>)
  {
    exists vs :: multiset(vs) == multiset(Range(n)) && InRange(BinaryTreeEdges(vs), n) &&
      NoLoops(BinaryTreeEdges(vs)) && adj == WithEdges(Empty(n), BinaryTreeEdges(vs))
  }

  /** A star: the first vertex of some order joined to every other. */
  ghost predicate StarOf(n: nat, adj: seq<seq<int>>)
  {
    exists vs :: vs != [] && multiset(vs) == multiset(Range(n)) && InRange(StarEdges(vs), n) &&
      NoLoops(StarEdges(vs)) && adj == WithEdges(Empty(n), StarEdges(vs))
  }

  /** Every vertex of degree k, the edges pairing up k copies of each vertex. */
  ghost predicate RegularOf(n: nat, k: int, adj: seq<seq<int>>)
  {
    (forall x :: 0 <= x < |adj| ==> |adj[x]| == k) &&
    exists vs :: multiset(vs) == multiset(Copies(n, if k < 0 then 0 else k)) && InRange(RegularEdges(vs), n) &&
      NoLoops(RegularEdges(vs)) && adj == WithEdges(Empty(n), RegularEdges(vs))
  }

  /** One vertex and no edge, or the n - 1 edges a Prüfer sequence decodes to. */
  ghost predicate TreeOf(n: nat, numEdges: int, adj: seq<seq<int>>)
  {
    (n == 1 ==> adj == Empty(1) && numEdges == 0) &&
    (n >= 2 ==>
      numEdges == n - 1 &&
      exists prufer :: PruferTree.Shaped(PruferTree.Vertices(n), prufer) &&
        InRange(PruferTree.Decode(PruferTree.Vertices(n), prufer), n) &&
        NoLoops(PruferTree.Decode(PruferTree.Vertices(n), prufer)) &&
        adj == WithEdges(Empty(n), PruferTree.Decode(PruferTree.Vertices(n), prufer)))
  }

  /**
   * The failure the arguments alone force: cycle of 0 vertices indexes an empty list;
   * simple with more edges than pairs (or fewer than none), cycle of 1, star and tree of
   * 0, and regular with n * k odd fail an assert.
   */
  function FaultOf(k: Kind, c: seq<int>): (f: Option<Fault>)
    requires |c| == Arity(k)
    ensures f.Some? ==> !Outside(k, c)
  {
    if Outside(k, c) then None
    else
      match k
      case SimpleGraph =>
        if c[1] < 0 || c[1] > c[0] * (c[0] - 1) / 2 then Some(AssertionFailed) else None
      case CycleGraph =>
        if c[0] == 0 then Some(IndexOutOfBounds) else if c[0] == 1 then Some(AssertionFailed) else None
      case StarGraph => if c[0] == 0 then Some(AssertionFailed) else None
      case TreeGraph => if c[0] == 0 then Some(AssertionFailed) else None
      case RegularGraph => if (c[0] * c[1]) % 2 != 0 then Some(AssertionFailed) else None
      case _ => None
  }

  /** getToast, getTriangle, getLollipop. */
  method Fixed(k: Kind) returns (g: ListGraph.Graph)
    requires k in {Toast, Triangle, Lollipop}
    ensures fresh(g) && g.Valid() && g.numVertices == Size(k, [])
    ensures k == Toast ==> g.name == "Toast" && g.adj == WithEdges(Empty(4), ToastEdges) && g.numEdges == 5
    ensures k == Triangle ==> g.name == "Triangle" && g.adj == WithEdges(Empty(3), TriangleEdges) && g.numEdges == 3
    ensures k == Lollipop ==> g.name == "Lollipop" && g.adj == WithEdges(Empty(4), LollipopEdges) && g.numEdges == 4
    ensures Built(k, [], g)
  {
    var r;
    if k == Toast {
      r := Build(4, "Toast", ToastEdges);
    } else if k == Triangle {
      r := Build(3, "Triangle", TriangleEdges);
    } else {
      r := Build(4, "Lollipop", LollipopEdges);
    }
    g := r.value;
  }

  /** The generator of case k on its integer arguments. */
  method Generate(k: Kind, c: seq<int>) returns (r: Result<Option<ListGraph.Graph>>)
    requires |c| == Arity(k) && k !in {Toast, Triangle, Lollipop}
    ensures FaultOf(k, c).Some? ==> r == Err(FaultOf(k, c).value)
    ensures r.Err? ==> FaultOf(k, c).Some? || (k == RegularGraph && r == Err(AssertionFailed))
    ensures r.Ok? ==> (r.value.None? <==> Outside(k, c))
    ensures r.Ok? && r.value.Some? ==> fresh(r.value.value) && r.value.value.Valid() && Built(k, c, r.value.value)
  {
    if Outside(k, c) {
      return Ok(None);
    }
    var built: Result<ListGraph.Graph>;
    if k in {CompleteGraph, PathGraph, BinaryTreeGraph, CycleGraph} {
      built := GenerateShaped(k, c);
    } else {
      built := GenerateDrawn(k, c);
    }
    match built {
      case Ok(g) => return Ok(Some(g));
      case Err(f) => return Err(f);
    }
  }

  /** The cases whose graph depends on the vertex count alone: complete, path, binary tree, cycle. */
  method GenerateShaped(k: Kind, c: seq<int>) returns (built: Result<ListGraph.Graph>)
    requires |c| == Arity(k) && k in {CompleteGraph, PathGraph, BinaryTreeGraph, CycleGraph} && !Outside(k, c)
    ensures FaultOf(k, c).Some? ==> built == Err(FaultOf(k, c).value)
    ensures built.Err? ==> FaultOf(k, c).Some?
    ensures built.Ok? ==> fresh(built.value) && built.value.Valid() && Built(k, c, built.value)
  {
    var n: nat := c[0];
    match k {
      case CompleteGraph =>
        var g := Complete(n);
        built := Ok(g);
        assert forall a, b :: 0 <= a < n && 0 <= b < n ==> (g.HasEdge(a, b) <==> ListGraph.Adjacent(g.adj, a, b));
        assert Built(k, c, g);
      case PathGraph =>
        var g, vs := Path(n);
        built := Ok(g);
        assert Built(k, c, g);
      case BinaryTreeGraph =>
        var g, vs := BinaryTree(n);
        built := Ok(g);
        assert Built(k, c, g);
      case CycleGraph =>
        built := Cycle(n);
        if n >= 2 {
          CycleJoins(n, 0, 0);
        }
        assert built.Ok? ==> Built(k, c, built.value);
    }
  }

  /** The cases drawn at random: simple, star, regular, tree. */
  method GenerateDrawn(k: Kind, c: seq<int>) returns (built: Result<ListGraph.Graph>)
    requires |c| == Arity(k) && k in {SimpleGraph, StarGraph, RegularGraph, TreeGraph} && !Outside(k, c)
    ensures FaultOf(k, c).Some? ==> built == Err(FaultOf(k, c).value)
    ensures built.Err? ==> FaultOf(k, c).Some? || (k == RegularGraph && built == Err(AssertionFailed))
    ensures built.Ok? ==> fresh(built.value) && built.value.Valid() && Built(k, c, built.value)
  {
    var n: nat := c[0];
    match k {
      case SimpleGraph =>
        ghost var es;
        built, es := SimpleAsWritten(n, c[1]);
        assert built.Ok? ==> Built(k, c, built.value);
      case StarGraph =>
        ghost var vs;
        built, vs := Star(n);
        assert built.Ok? ==> Built(k, c, built.value);
      case RegularGraph =>
        ghost var vs;
        built, vs := Regular(n, c[1]);
        assert built.Ok? ==> Built(k, c, built.value);
      case TreeGraph =>
        ghost var prufer;
        built, prufer := PruferTree.Tree(n);
        assert built.Ok? ==> Built(k, c, built.value);
    }
  }

  /**
   * getGraph(args): args[1] picks the case; the case reads its integer arguments, and
   * a missing one fails; an unknown name throws IllegalStateException.
   */
  method GetGraph(args: seq<string>) returns (r: Result<Option<ListGraph.Graph>>)
    ensures |args| < 2 ==> r == Err(IndexOutOfBounds)
    ensures |args| >= 2 ==> (r == Err(IllegalState) <==> KindOf(args[1]).None?)
    ensures |args| >= 2 && KindOf(args[1]).Some? && |args| < 2 + Arity(KindOf(args[1]).value) ==>
              r == Err(IndexOutOfBounds)
    ensures r.Ok? ==> |args| >= 2 && KindOf(args[1]).Some? && |args| >= 2 + Arity(KindOf(args[1]).value)
    ensures r.Ok? ==> (r.value.None? <==> Outside(KindOf(args[1]).value, Counts(args, KindOf(args[1]).value)))
    ensures |args| >= 2 && KindOf(args[1]).Some? && |args| >= 2 + Arity(KindOf(args[1]).value) ==>
              var k := KindOf(args[1]).value;
              (FaultOf(k, Counts(args, k)).Some? ==> r == Err(FaultOf(k, Counts(args, k)).value)) &&
              (r.Err? ==> FaultOf(k, Counts(args, k)).Some? || (k == RegularGraph && r == Err(AssertionFailed)))
    ensures r.Ok? && r.value.Some? ==>
              fresh(r.value.value) && r.value.value.Valid() &&
              Built(KindOf(args[1]).value, Counts(args, KindOf(args[1]).value), r.value.value)
  {
    if |args| < 2 {
      return Err(IndexOutOfBounds);
    }
    var kind := KindOf(args[1]);
    if kind.None? {
      return Err(IllegalState);
    }
    r := Run(args, kind.value);
  }

  /** getGraph once args[1] has selected case k. */
  method Run(args: seq<string>, k: Kind) returns (r: Result<Option<ListGraph.Graph>>)
    requires |args| >= 2
    ensures r != Err(IllegalState)
    ensures |args| < 2 + Arity(k) ==> r == Err(IndexOutOfBounds)
    ensures r.Ok? ==> |args| >= 2 + Arity(k)
    ensures r.Ok? ==> (r.value.None? <==> Outside(k, Counts(args, k)))
    ensures |args| >= 2 + Arity(k) && FaultOf(k, Counts(args, k)).Some? ==> r == Err(FaultOf(k, Counts(args, k)).value)
    ensures r.Err? ==>
              |args| < 2 + Arity(k) || FaultOf(k, Counts(args, k)).Some? || (k == RegularGraph && r == Err(AssertionFailed))
    ensures r.Ok? && r.value.Some? ==> fresh(r.value.value) && r.value.value.Valid() && Built(k, Counts(args, k), r.value.value)
  {
    if |args| < 2 + Arity(k) {
      return Err(IndexOutOfBounds);
    }
    if k in {Toast, Triangle, Lollipop} {
      var g := Fixed(k);
      assert Counts(args, k) == [];
      return Ok(Some(g));
    }
    var parsed := ParseIntegers(args[2..2 + Arity(k)]);
    assert parsed[..] == Counts(args, k);
    r := Generate(k, parsed[..]);
  }
}
