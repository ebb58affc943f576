/**
 * GraphGenerator.tree (src/io/github/ethankelly/graph/GraphGenerator.java): a random tree
 * on n vertices from a random Prüfer sequence.  The degree array counts one more than each
 * vertex's occurrences in the sequence, a MinPQ holds the vertices of degree 1, and each
 * step joins the smallest of them to the next entry of the sequence.
 *
 * Decode is the textbook decoding the loop carries out, stated on sets: the still
 * unattached vertices and the rest of the sequence.
 */
module PruferTree {
  import opened Wrappers
  import opened Rand
  import ListGraph
  import opened Generators

  /** The vertices 0..n-1. */
  ghost function Vertices(n: nat): set<int>
  {
    set x | x in Range(n)
  }

  lemma VerticesIn(n: nat)
    ensures forall x :: x in Vertices(n) <==> 0 <= x < n
  {
    forall x ensures x in Vertices(n) <==> 0 <= x < n {
      if 0 <= x < n {
        assert Range(n)[x] == x;
      }
    }
  }

  lemma {:induction false} VerticesSize(n: nat)
    ensures |Vertices(n)| == n
  {
    if n > 0 {
      VerticesSize(n - 1);
      VerticesIn(n);
      VerticesIn(n - 1);
      assert Vertices(n) == Vertices(n - 1) + {n - 1};
    }
  }

  /** A non-empty set has an element. */
  lemma SomeElement(s: set<int>)
    requires s != {}
    ensures exists y :: y in s
  {
    assert (forall y :: y !in s) ==> s == {};
  }

  /** The smallest element of a non-empty finite set. */
  ghost function MinOf(s: set<int>): (x: int)
    requires s != {}
    ensures x in s && forall y :: y in s ==> x <= y
  {
    SomeElement(s);
    var y :| y in s;
    if s == {y} then y
    else
      var m := MinOf(s - {y});
      assert forall z :: z in s ==> z == y || z in s - {y};
      if m < y then m else y
  }

  /** The values of a sequence, as a set, are no more than its length. */
  lemma {:induction false} ValuesSize(s: seq<int>)
    ensures |set x | x in s| <= |s|
  {
    if s != [] {
      ValuesSize(s[1..]);
      assert (set x | x in s) == (set x | x in s[1..]) + {s[0]};
    }
  }

  /** The unattached vertices that do not occur in the rest of the sequence: those of degree 1. */
  ghost function Leaves(alive: set<int>, rest: seq<int>): set<int>
  {
    set x | x in alive && x !in rest
  }

  /** Two more unattached vertices than entries left, each entry unattached. */
  ghost predicate Shaped(alive: set<int>, rest: seq<int>)
  {
    |alive| == |rest| + 2 && forall i :: 0 <= i < |rest| ==> rest[i] in alive
  }

  /** At least two unattached vertices are leaves. */
  lemma LeavesSize(alive: set<int>, rest: seq<int>)
    requires Shaped(alive, rest)
    ensures |Leaves(alive, rest)| >= 2
  {
    var values := set x | x in rest;
    ValuesSize(rest);
    assert alive <= values + Leaves(alive, rest);
    SubsetSize(alive, values + Leaves(alive, rest));
  }

  /**
   * Prüfer decoding: join the smallest leaf to the next entry and drop the leaf; when
   * no entry is left, join the last two vertices, the smaller one first.
   */
  ghost function Decode(alive: set<int>, rest: seq<int>): seq<(int, int)>
    requires Shaped(alive, rest)
    decreases |rest|
  {
    if rest == [] then
      var a := MinOf(alive);
      assert alive - {a} != {} by {
        assert |alive - {a}| == 1;
      }
      [(a, MinOf(alive - {a}))]
    else
      LeavesSize(alive, rest);
      var v := MinOf(Leaves(alive, rest));
      [(v, rest[0])] + Decode(alive - {v}, rest[1..])
  }

  /** The endpoints of one more call. */
  lemma EndsSnoc(es: seq<(int, int)>, e: (int, int))
    ensures Ends(es + [e]) == Ends(es) + multiset{e.0, e.1}
  {
    assert (es + [e])[..|es|] == es;
  }

  /** The endpoints of two runs of calls, one after the other. */
  lemma {:induction false} EndsAppend(a: seq<(int, int)>, b: seq<(int, int)>)
    ensures Ends(a + b) == Ends(a) + Ends(b)
    decreases |b|
  {
    if b == [] {
      assert a + b == a;
    } else {
      var init := b[..|b| - 1];
      var last := b[|b| - 1];
      assert b == init + [last];
      assert a + b == (a + init) + [last];
      EndsAppend(a, init);
      EndsSnoc(a + init, last);
      EndsSnoc(init, last);
    }
  }

  /** Two vertices are the smallest one and the smallest of the others. */
  lemma LastTwo(alive: set<int>)
    requires |alive| == 2
    ensures alive - {MinOf(alive)} != {}
    ensures alive == {MinOf(alive), MinOf(alive - {MinOf(alive)})}
    ensures MinOf(alive) != MinOf(alive - {MinOf(alive)})
  {
    var a := MinOf(alive);
    var others := alive - {a};
    assert |others| == 1;
    var b := MinOf(others);
    assert |others - {b}| == 0;
    assert others == {b};
    assert alive == others + {a};
  }

  /**
   * The decoded calls: one per entry plus the last, never a loop, and only between
   * unattached vertices.
   */
  lemma {:induction false} DecodeCalls(alive: set<int>, rest: seq<int>)
    requires Shaped(alive, rest)
    ensures |Decode(alive, rest)| == |rest| + 1 && NoLoops(Decode(alive, rest))
    ensures forall k :: 0 <= k < |Decode(alive, rest)| ==>
              Decode(alive, rest)[k].0 in alive && Decode(alive, rest)[k].1 in alive
    decreases |rest|
  {
    var es := Decode(alive, rest);
    if rest == [] {
      LastTwo(alive);
    } else {
      LeavesSize(alive, rest);
      var v := MinOf(Leaves(alive, rest));
      var tail := Decode(alive - {v}, rest[1..]);
      DecodeCalls(alive - {v}, rest[1..]);
      assert es == [(v, rest[0])] + tail;
      assert rest[0] in rest;
      forall k | 0 <= k < |es|
        ensures es[k].0 in alive && es[k].1 in alive && es[k].0 != es[k].1
      {
        if k > 0 {
          assert es[k] == tail[k - 1];
          assert tail[k - 1].0 in alive - {v};
          assert tail[k - 1].1 in alive - {v};
          assert tail[k - 1].0 != tail[k - 1].1;
        } else {
          assert rest[0] in rest;
          assert rest[0] in alive;
          assert es[0] == (v, rest[0]);
          assert v in Leaves(alive, rest);
          assert v in alive && v !in rest;
        }
      }
    }
  }

  /** The endpoints of a call followed by more calls. */
  lemma EndsFront(e: (int, int), es: seq<(int, int)>)
    ensures Ends([e] + es) == multiset{e.0, e.1} + Ends(es)
  {
    EndsAppend([e], es);
    EndsSnoc([], e);
    assert [] + [e] == [e];
  }

  /** With two unattached vertices and no entries left, each is in the one last call. */
  lemma DecodeEndsLast(alive: set<int>)
    requires |alive| == 2
    ensures forall x :: Ends(Decode(alive, []))[x] == Degree(alive, [], x)
  {
    LastTwo(alive);
    var a := MinOf(alive);
    var b := MinOf(alive - {a});
    EndsFront((a, b), []);
    assert Ends([]) == multiset{};
  }

  /** Each unattached vertex ends up in one more call than it occurs in the sequence. */
  lemma {:induction false} DecodeEnds(alive: set<int>, rest: seq<int>)
    requires Shaped(alive, rest)
    ensures forall x :: Ends(Decode(alive, rest))[x] == Degree(alive, rest, x)
    decreases |rest|
  {
    if rest == [] {
      DecodeEndsLast(alive);
    } else {
      LeavesSize(alive, rest);
      var v := MinOf(Leaves(alive, rest));
      StepFacts(alive, rest, v);
      DecodeEnds(alive - {v}, rest[1..]);
      EndsFront((v, rest[0]), Decode(alive - {v}, rest[1..]));
    }
  }

  /**
   * A sequence of n - 2 vertices of 0..n-1 decodes to n - 1 calls between vertices of the
   * graph, none a loop, and vertex x is in 1 + (occurrences of x) of them.
   */
  lemma DecodeTree(n: nat, prufer: seq<int>)
    requires n >= 2 && |prufer| == n - 2 && forall i :: 0 <= i < n - 2 ==> 0 <= prufer[i] < n
    ensures Shaped(Vertices(n), prufer)
    ensures |Decode(Vertices(n), prufer)| == n - 1
    ensures InRange(Decode(Vertices(n), prufer), n) && NoLoops(Decode(Vertices(n), prufer))
    ensures forall x :: 0 <= x < n ==> Ends(Decode(Vertices(n), prufer))[x] == 1 + multiset(prufer)[x]
  {
    VerticesSize(n);
    VerticesIn(n);
    assert Shaped(Vertices(n), prufer);
    DecodeCalls(Vertices(n), prufer);
    DecodeEnds(Vertices(n), prufer);
    forall x | 0 <= x < n ensures Ends(Decode(Vertices(n), prufer))[x] == 1 + multiset(prufer)[x] {
      assert Degree(Vertices(n), prufer, x) == 1 + multiset(prufer)[x];
    }
  }

  /** Removing the smallest leaf v and the first entry: the first entry becomes a leaf when it does not occur again. */
  lemma LeavesStep(alive: set<int>, rest: seq<int>, v: int)
    requires rest != [] && v in Leaves(alive, rest) && forall i :: 0 <= i < |rest| ==> rest[i] in alive
    ensures rest[0] != v
    ensures rest[0] in rest[1..] ==> Leaves(alive - {v}, rest[1..]) == Leaves(alive, rest) - {v}
    ensures rest[0] !in rest[1..] ==>
              rest[0] !in Leaves(alive, rest) && Leaves(alive - {v}, rest[1..]) == (Leaves(alive, rest) - {v}) + {rest[0]}
  {
    assert rest == [rest[0]] + rest[1..];
  }

  // ---------------------------------------------------------------------------
  // The priority queue as a set of keys
  // ---------------------------------------------------------------------------

  /** The keys of a queue holding each vertex of s once. */
  ghost function Keyed(s: set<int>): multiset<Option<int>>
  {
    multiset(set x | x in s :: Some(x))
  }

  lemma KeyedCount(s: set<int>)
    ensures forall x :: Keyed(s)[Some(x)] == if x in s then 1 else 0
    ensures Keyed(s)[None] == 0
  {
    forall x ensures Keyed(s)[Some(x)] == if x in s then 1 else 0 {
      assert Some(x) in (set y | y in s :: Some(y)) <==> x in s;
    }
  }

  lemma KeyedAdd(s: set<int>, x: int)
    requires x !in s
    ensures Keyed(s + {x}) == Keyed(s) + multiset{Some(x)}
  {
    KeyedCount(s);
    KeyedCount(s + {x});
    forall o ensures Keyed(s + {x})[o] == (Keyed(s) + multiset{Some(x)})[o] {
      if o.Some? {
        assert o == Some(o.value);
      }
    }
  }

  lemma KeyedRemove(s: set<int>, x: int)
    ensures Keyed(s - {x}) == Keyed(s) - multiset{Some(x)}
  {
    KeyedCount(s);
    KeyedCount(s - {x});
    forall o ensures Keyed(s - {x})[o] == (Keyed(s) - multiset{Some(x)})[o] {
      if o.Some? {
        assert o == Some(o.value);
      }
    }
  }

  /** The key delMin returns from such a queue is the smallest vertex of s. */
  lemma KeyedMin(s: set<int>, x: int)
    requires Some(x) in Keyed(s) && AtMost(x, Keyed(s))
    ensures s != {} && x == MinOf(s)
  {
    KeyedCount(s);
    var m := MinOf(s);
    assert Some(m) in Keyed(s);
  }

  /** A queue holding a non-empty set of keys is not empty. */
  lemma KeyedNonEmpty(s: set<int>, x: int)
    requires x in s
    ensures |Keyed(s)| > 0
  {
    KeyedCount(s);
    assert Some(x) in Keyed(s);
  }

  // ---------------------------------------------------------------------------
  // tree(n)
  // ---------------------------------------------------------------------------

  /** IntStream.range(0, len).map(i -> Rand.uniform(n)).toArray(): len draws in [0, n). */
  method DrawPrufer(n: nat, len: nat) returns (prufer: array<int>)
    requires len > 0 ==> n > 0
    ensures fresh(prufer) && prufer.Length == len
    ensures forall i :: 0 <= i < len ==> 0 <= prufer[i] < n
  {
    prufer := new int[len](_ => 0);
    var i := 0;
    while i < len
      invariant 0 <= i <= len
      invariant forall q :: 0 <= q < i ==> 0 <= prufer[q] < n
    {
      var u := Uniform(n);
      prufer[i] := u.value;
      i := i + 1;
    }
  }

  /** The degree array: 1 for every vertex, plus one for each occurrence in the sequence. */
  method CountDegrees(n: nat, prufer: array<int>) returns (degree: array<int>)
    requires forall i :: 0 <= i < prufer.Length ==> 0 <= prufer[i] < n
    ensures fresh(degree) && degree.Length == n
    ensures forall x :: 0 <= x < n ==> degree[x] == 1 + multiset(prufer[..])[x]
  {
    degree := new int[n](_ => 1);
    var i := 0;
    while i < prufer.Length
      invariant 0 <= i <= prufer.Length
      invariant forall x :: 0 <= x < n ==> degree[x] == 1 + multiset(prufer[..i])[x]
    {
      assert prufer[..i + 1] == prufer[..i] + [prufer[i]];
      degree[prufer[i]] := degree[prufer[i]] + 1;
      i := i + 1;
    }
    assert prufer[..i] == prufer[..];
  }

  /** The leaves among 0..v, from those among 0..v-1. */
  lemma LeavesNext(v: nat, rest: seq<int>)
    ensures v !in rest ==> Leaves(Vertices(v + 1), rest) == Leaves(Vertices(v), rest) + {v}
    ensures v in rest ==> Leaves(Vertices(v + 1), rest) == Leaves(Vertices(v), rest)
    ensures v !in Leaves(Vertices(v), rest)
  {
    VerticesIn(v);
    VerticesIn(v + 1);
  }

  /** A new MinPQ holding the vertices of degree 1: the leaves of the whole sequence. */
  method QueueLeaves(n: nat, degree: array<int>, ghost rest: seq<int>) returns (pq: MinPQ)
    requires degree.Length == n
    requires forall x :: 0 <= x < n ==> degree[x] == 1 + multiset(rest)[x]
    ensures fresh(pq) && fresh(pq.pq) && pq.Valid()
    ensures pq.Contents() == Keyed(Leaves(Vertices(n), rest))
  {
    pq := new MinPQ(1);
    KeyedCount({});
    VerticesIn(0);
    assert Leaves(Vertices(0), rest) == {};
    ghost var queued: set<int> := {};
    var v := 0;
    while v < n
      invariant 0 <= v <= n && fresh(pq) && fresh(pq.pq) && pq.Valid()
      invariant queued == Leaves(Vertices(v), rest)
      invariant pq.Contents() == Keyed(queued)
    {
      LeavesNext(v, rest);
      if degree[v] == 1 {
        KeyedAdd(queued, v);
        pq.Insert(v);
        queued := queued + {v};
      }
      v := v + 1;
    }
  }

  /**
   * tree(n): with one vertex, the edgeless graph.  Otherwise n - 2 draws in [0, n) form
   * the sequence; each of the n - 2 steps removes the smallest vertex of degree 1 from
   * the queue, joins it to the next entry and lowers both degrees, queueing the entry
   * when its degree drops to 1; the last two vertices on the queue are joined.  With no
   * vertices the final delMin finds the queue empty.
   */
  method Tree(n: nat) returns (r: Result<ListGraph.Graph>, ghost prufer: seq<int>)
    ensures r.Err? <==> n == 0
    ensures r.Err? ==> r.fault == AssertionFailed
    ensures r.Ok? ==> fresh(r.value) && r.value.Valid() && r.value.numVertices == n && r.value.name == "Tree"
    ensures n == 1 ==> r.Ok? && r.value.adj == Empty(1) && r.value.numEdges == 0
    ensures n >= 2 ==> |prufer| == n - 2 && forall i :: 0 <= i < n - 2 ==> 0 <= prufer[i] < n
    ensures r.Ok? && n >= 2 ==> Shaped(Vertices(n), prufer)
    ensures r.Ok? && n >= 2 ==> InRange(Decode(Vertices(n), prufer), n) && NoLoops(Decode(Vertices(n), prufer))
    ensures r.Ok? && n >= 2 ==> r.value.adj == WithEdges(Empty(n), Decode(Vertices(n), prufer))
    ensures r.Ok? && n >= 2 ==> r.value.numEdges == n - 1
    ensures r.Ok? && n >= 2 ==> forall x :: 0 <= x < n ==> |r.value.adj[x]| == 1 + multiset(prufer)[x]
  {
    prufer := [];
    var g := new ListGraph.Graph(n, "Tree");
    if n == 1 {
      return Ok(g), prufer;
    }
    if n == 0 {
      var empty := new MinPQ(1);
      var d := empty.DelMin();
      return Err(d.fault), prufer;
    }
    var codes := DrawPrufer(n, n - 2);
    prufer := codes[..];
    DecodeTree(n, prufer);
    var pq;
    ghost var alive, done;
    pq, alive, done := Attach(g, codes);
    done := Finish(g, pq, alive, done);
    assert done == Decode(Vertices(n), prufer);
    TreeDegrees(n, prufer);
    return Ok(g), prufer;
  }

  /** In the decoded tree every vertex has one edge more than it has entries in the sequence. */
  lemma TreeDegrees(n: nat, prufer: seq<int>)
    requires n >= 2 && |prufer| == n - 2 && forall i :: 0 <= i < n - 2 ==> 0 <= prufer[i] < n
    requires Shaped(Vertices(n), prufer)
    requires InRange(Decode(Vertices(n), prufer), n) && NoLoops(Decode(Vertices(n), prufer))
    ensures forall x :: 0 <= x < n ==> |WithEdges(Empty(n), Decode(Vertices(n), prufer))[x]| == 1 + multiset(prufer)[x]
  {
    DecodeTree(n, prufer);
    forall x | 0 <= x < n
      ensures |WithEdges(Empty(n), Decode(Vertices(n), prufer))[x]| == 1 + multiset(prufer)[x]
    {
      DegreeWithEdges(Empty(n), Decode(Vertices(n), prufer), x);
      assert |Empty(n)[x]| == 0;
    }
  }

  /**
   * The first part of tree(n) for n >= 2: count the degrees, queue the leaves, and run
   * the n - 2 steps, leaving two unattached vertices on the queue.
   */
  method Attach(g: ListGraph.Graph, codes: array<int>)
    returns (pq: MinPQ, ghost alive: set<int>, ghost done: seq<(int, int)>)
    requires g.Valid() && g.numVertices >= 2 && codes.Length == g.numVertices - 2
    requires forall i :: 0 <= i < codes.Length ==> 0 <= codes[i] < g.numVertices
    requires g.adj == Empty(g.numVertices) && g.numEdges == 0
    modifies g
    ensures fresh(pq) && fresh(pq.pq) && pq.Valid() && pq.Contents() == Keyed(alive)
    ensures g.Valid() && g.numVertices == old(g.numVertices) && g.name == old(g.name)
    ensures alive <= Vertices(g.numVertices) && |alive| == 2
    ensures InRange(done, g.numVertices) && NoLoops(done) && g.adj == WithEdges(Empty(g.numVertices), done)
    ensures g.numEdges == |done|
    ensures Shaped(Vertices(g.numVertices), codes[..])
    ensures done + Decode(alive, []) == Decode(Vertices(g.numVertices), codes[..])
  {
    var n := g.numVertices;
    ghost var prufer := codes[..];
    var degree := CountDegrees(n, codes);
    pq := QueueLeaves(n, degree, prufer);
    DecodeTree(n, prufer);
    VerticesIn(n);
    assert prufer[0..] == prufer;
    alive, done := Steps(g, pq, degree, codes);
  }

  /** The n - 2 steps of tree(n), from the whole sequence to two unattached vertices. */
  method Steps(g: ListGraph.Graph, pq: MinPQ, degree: array<int>, codes: array<int>)
    returns (ghost alive: set<int>, ghost done: seq<(int, int)>)
    requires g.Valid() && g.numVertices >= 2 && codes.Length == g.numVertices - 2
    requires degree.Length == g.numVertices && degree != codes
    requires g.adj == Empty(g.numVertices) && g.numEdges == 0
    requires pq.Valid() && Shaped(Vertices(g.numVertices), codes[0..])
    requires forall x :: 0 <= x < g.numVertices ==> degree[x] == Degree(Vertices(g.numVertices), codes[0..], x)
    requires pq.Contents() == Keyed(Leaves(Vertices(g.numVertices), codes[0..]))
    modifies g, pq, pq.pq, degree
    ensures pq.Valid() && (pq.pq == old(pq.pq) || fresh(pq.pq)) && pq.Contents() == Keyed(alive)
    ensures g.Valid() && g.numVertices == old(g.numVertices) && g.name == old(g.name)
    ensures alive <= Vertices(g.numVertices) && |alive| == 2
    ensures InRange(done, g.numVertices) && NoLoops(done) && g.adj == WithEdges(Empty(g.numVertices), done)
    ensures g.numEdges == |done|
    ensures done + Decode(alive, []) == Decode(Vertices(g.numVertices), codes[0..])
  {
    var n := g.numVertices;
    ghost var prufer := codes[..];
    alive := Vertices(n);
    done := [];
    var i := 0;
    while i < n - 2
      invariant 0 <= i <= n - 2 && codes[..] == prufer
      invariant g.Valid() && g.numVertices == n && g.name == old(g.name)
      invariant pq.Valid() && (pq.pq == old(pq.pq) || fresh(pq.pq))
      invariant alive <= Vertices(n) && Shaped(alive, codes[i..])
      invariant forall x :: 0 <= x < n ==> degree[x] == Degree(alive, codes[i..], x)
      invariant pq.Contents() == Keyed(Leaves(alive, codes[i..]))
      invariant InRange(done, n) && NoLoops(done) && g.adj == WithEdges(Empty(n), done) && g.numEdges == |done|
      invariant done + Decode(alive, codes[i..]) == Decode(Vertices(n), codes[0..])
    {
      alive, done := TreeStep(g, pq, degree, codes, i, alive, done);
      i := i + 1;
    }
    assert i == n - 2;
    assert codes[i..] == [];
    assert Leaves(alive, []) == alive;
  }

  /** The end of tree(n): join the two vertices left on the queue, the smaller first. */
  method Finish(g: ListGraph.Graph, pq: MinPQ, ghost alive: set<int>, ghost done: seq<(int, int)>)
    returns (ghost done': seq<(int, int)>)
    requires pq.Valid() && pq.Contents() == Keyed(alive)
    requires g.Valid() && alive <= Vertices(g.numVertices) && |alive| == 2
    requires InRange(done, g.numVertices) && NoLoops(done) && g.adj == WithEdges(Empty(g.numVertices), done)
    requires g.numEdges == |done|
    modifies g, pq, pq.pq
    ensures done' == done + Decode(alive, [])
    ensures g.Valid() && g.numVertices == old(g.numVertices) && g.name == old(g.name)
    ensures InRange(done', g.numVertices) && NoLoops(done') && g.adj == WithEdges(Empty(g.numVertices), done')
    ensures g.numEdges == |done'|
  {
    LastTwo(alive);
    VerticesIn(g.numVertices);
    var a := NextLeaf(pq, alive);
    var b := NextLeaf(pq, alive - {a});
    done' := Join(g, done, a, b);
  }

  /** The degree tree keeps for x: one more than its occurrences left, while x is unattached. */
  ghost function Degree(alive: set<int>, rest: seq<int>, x: int): int
  {
    if x in alive then 1 + multiset(rest)[x] else 0
  }

  /**
   * One decoding step: the smallest leaf v is joined to the first entry, which is
   * another unattached vertex; dropping both leaves a shaped pair, and the degrees of
   * v and of the entry go down by one.
   */
  lemma StepFacts(alive: set<int>, rest: seq<int>, v: int)
    requires Shaped(alive, rest) && rest != [] && Leaves(alive, rest) != {} && v == MinOf(Leaves(alive, rest))
    ensures v in alive && v !in rest && rest[0] in alive && rest[0] != v
    ensures Shaped(alive - {v}, rest[1..])
    ensures Decode(alive, rest) == [(v, rest[0])] + Decode(alive - {v}, rest[1..])
    ensures forall x :: Degree(alive - {v}, rest[1..], x) ==
              Degree(alive, rest, x) - (if x == v then 1 else 0) - (if x == rest[0] then 1 else 0)
    ensures Degree(alive - {v}, rest[1..], rest[0]) == 1 <==> rest[0] !in rest[1..]
  {
    assert v in Leaves(alive, rest);
    assert rest[0] in alive;
    assert rest == [rest[0]] + rest[1..];
    assert multiset(rest) == multiset{rest[0]} + multiset(rest[1..]);
    forall j | 0 <= j < |rest[1..]| ensures rest[1..][j] in alive - {v} {
      assert rest[1..][j] == rest[j + 1];
    }
  }

  /** delMin on a queue holding the leaves: the smallest leaf, and the queue holds the rest. */
  method NextLeaf(pq: MinPQ, ghost leaves: set<int>) returns (v: int)
    requires pq.Valid() && pq.Contents() == Keyed(leaves) && leaves != {}
    modifies pq, pq.pq
    ensures pq.Valid() && (pq.pq == old(pq.pq) || fresh(pq.pq))
    ensures v == MinOf(leaves) && pq.Contents() == Keyed(leaves - {v})
  {
    KeyedNonEmpty(leaves, MinOf(leaves));
    var d := pq.DelMin();
    v := d.value;
    KeyedMin(leaves, v);
    KeyedRemove(leaves, v);
  }

  /** degree[v]--; degree[p]--. */
  method Lower(degree: array<int>, v: int, p: int)
    requires 0 <= v < degree.Length && 0 <= p < degree.Length
    modifies degree
    ensures forall x :: 0 <= x < degree.Length ==>
              degree[x] == old(degree[x]) - (if x == v then 1 else 0) - (if x == p then 1 else 0)
  {
    degree[v] := degree[v] - 1;
    degree[p] := degree[p] - 1;
  }

  /** One step of the main loop of tree. */
  method TreeStep(g: ListGraph.Graph, pq: MinPQ, degree: array<int>, codes: array<int>, i: int,
                  ghost alive: set<int>, ghost done: seq<(int, int)>)
    returns (ghost alive': set<int>, ghost done': seq<(int, int)>)
    requires 0 <= i < codes.Length && degree.Length == g.numVertices && degree != codes
    requires g.Valid() && pq.Valid()
    requires alive <= Vertices(g.numVertices) && Shaped(alive, codes[i..])
    requires forall x :: 0 <= x < g.numVertices ==> degree[x] == Degree(alive, codes[i..], x)
    requires pq.Contents() == Keyed(Leaves(alive, codes[i..]))
    requires InRange(done, g.numVertices) && NoLoops(done) && g.adj == WithEdges(Empty(g.numVertices), done)
    requires g.numEdges == |done|
    modifies g, pq, pq.pq, degree
    ensures g.Valid() && g.numVertices == old(g.numVertices) && g.name == old(g.name)
    ensures pq.Valid() && (pq.pq == old(pq.pq) || fresh(pq.pq))
    ensures alive' <= Vertices(g.numVertices) && Shaped(alive', codes[i + 1..])
    ensures forall x :: 0 <= x < g.numVertices ==> degree[x] == Degree(alive', codes[i + 1..], x)
    ensures pq.Contents() == Keyed(Leaves(alive', codes[i + 1..]))
    ensures InRange(done', g.numVertices) && NoLoops(done') && g.adj == WithEdges(Empty(g.numVertices), done')
    ensures g.numEdges == |done'|
    ensures done' + Decode(alive', codes[i + 1..]) == done + Decode(alive, codes[i..])
  {
    ghost var rest := codes[i..];
    var p := codes[i];
    assert rest[0] == p && rest[1..] == codes[i + 1..];
    var v := LeafStep(pq, degree, alive, rest, p);
    StepDecode(g.numVertices, alive, rest, done, v);
    alive' := alive - {v};
    done' := Join(g, done, v, p);
  }

  /** After a step the unattached vertices are still vertices, and the calls so far plus the rest of the decoding are unchanged. */
  lemma StepDecode(n: nat, alive: set<int>, rest: seq<int>, done: seq<(int, int)>, v: int)
    requires alive <= Vertices(n) && Shaped(alive, rest) && rest != []
    requires Leaves(alive, rest) != {} && v == MinOf(Leaves(alive, rest))
    ensures 0 <= v < n && 0 <= rest[0] < n && v != rest[0]
    ensures alive - {v} <= Vertices(n) && Shaped(alive - {v}, rest[1..])
    ensures (done + [(v, rest[0])]) + Decode(alive - {v}, rest[1..]) == done + Decode(alive, rest)
  {
    StepFacts(alive, rest, v);
    VerticesIn(n);
    assert (done + [(v, rest[0])]) + Decode(alive - {v}, rest[1..]) == done + ([(v, rest[0])] + Decode(alive - {v}, rest[1..]));
  }

  /** addEdge(v, p) on the graph built from the calls so far. */
  method Join(g: ListGraph.Graph, ghost done: seq<(int, int)>, v: int, p: int) returns (ghost done': seq<(int, int)>)
    requires g.Valid() && 0 <= v < g.numVertices && 0 <= p < g.numVertices && v != p
    requires InRange(done, g.numVertices) && NoLoops(done) && g.adj == WithEdges(Empty(g.numVertices), done)
    requires g.numEdges == |done|
    modifies g
    ensures done' == done + [(v, p)]
    ensures g.Valid() && g.numVertices == old(g.numVertices) && g.name == old(g.name)
    ensures InRange(done', g.numVertices) && NoLoops(done') && g.adj == WithEdges(Empty(g.numVertices), done')
    ensures g.numEdges == |done'|
  {
    WithOneMore(g.numVertices, done, v, p);
    g.AddEdge(v, p);
    done' := done + [(v, p)];
  }

  /**
   * The queue and degree part of a step: take the smallest leaf v off the queue, lower
   * the degrees of v and of the entry p, and queue p when it becomes a leaf.
   */
  method LeafStep(pq: MinPQ, degree: array<int>, ghost alive: set<int>, ghost rest: seq<int>, p: int)
    returns (v: int)
    requires pq.Valid() && Shaped(alive, rest) && rest != [] && rest[0] == p
    requires alive <= Vertices(degree.Length)
    requires forall x :: 0 <= x < degree.Length ==> degree[x] == Degree(alive, rest, x)
    requires pq.Contents() == Keyed(Leaves(alive, rest))
    modifies pq, pq.pq, degree
    ensures pq.Valid() && (pq.pq == old(pq.pq) || fresh(pq.pq))
    ensures Leaves(alive, rest) != {} && v == MinOf(Leaves(alive, rest))
    ensures forall x :: 0 <= x < degree.Length ==> degree[x] == Degree(alive - {v}, rest[1..], x)
    ensures pq.Contents() == Keyed(Leaves(alive - {v}, rest[1..]))
  {
    ghost var leaves := Leaves(alive, rest);
    LeavesSize(alive, rest);
    v := NextLeaf(pq, leaves);
    StepFacts(alive, rest, v);
    LeavesStep(alive, rest, v);
    VerticesIn(degree.Length);
    Lower(degree, v, p);
    if degree[p] == 1 {
      KeyedAdd(leaves - {v}, p);
      pq.Insert(p);
    }
  }
}
