/**
 * The integer parts of src/io/github/ethankelly/graph/Rand.java: the argument checks
 * and ranges of uniform and discrete, the Fisher-Yates shuffle, permutation, and the
 * binary-heap MinPriorityQueue.  Every draw of java.util.Random is a nondeterministic
 * choice in its documented range, so each contract holds for every outcome.
 */
module Rand {
  import opened Wrappers

  /** Integer.MAX_VALUE */
  const IntMax: int := 0x7fff_ffff

  /** uniform(n): a value in [0, n); n <= 0 is an illegal argument. */
  method Uniform(n: int) returns (r: Result<int>)
    ensures r.Err? <==> n <= 0
    ensures r.Err? ==> r.fault == IllegalArgument
    ensures r.Ok? ==> 0 <= r.value < n
  {
    if n <= 0 {
      return Err(IllegalArgument);
    }
    var x :| 0 <= x < n;
    return Ok(x);
  }

  /**
   * uniform(a, b): a value in [a, b).  An empty range, and one whose width
   * (b - a, taken as a long) reaches Integer.MAX_VALUE, are illegal arguments.
   */
  method UniformRange(a: int, b: int) returns (r: Result<int>)
    ensures r.Err? <==> b <= a || b - a >= IntMax
    ensures r.Err? ==> r.fault == IllegalArgument
    ensures r.Ok? ==> a <= r.value < b
  {
    if b <= a || b - a >= IntMax {
      return Err(IllegalArgument);
    }
    var u := Uniform(b - a);
    return Ok(a + u.value);
  }

  /** The sum of a list of frequencies. */
  function Sum(f: seq<int>): int
  {
    if f == [] then 0 else Sum(f[..|f| - 1]) + f[|f| - 1]
  }

  /** A prefix sum of non-negative entries is at most the whole sum. */
  lemma {:induction false} SumPrefixBound(f: seq<int>, i: int)
    requires forall k :: 0 <= k < |f| ==> f[k] >= 0
    requires 0 <= i <= |f|
    ensures 0 <= Sum(f[..i]) <= Sum(f)
    decreases |f|
  {
    if i < |f| {
      assert f[..|f| - 1][..i] == f[..i];
      SumPrefixBound(f[..|f| - 1], i);
    } else {
      assert f[..i] == f;
      if f != [] {
        SumPrefixBound(f[..|f| - 1], |f| - 1);
        assert f[..|f| - 1][..|f| - 1] == f[..|f| - 1];
      }
    }
  }

  /**
   * discrete(frequencies): a negative entry, an all-zero array and a sum that
   * reaches Integer.MAX_VALUE are illegal arguments.  Otherwise the index drawn
   * has a positive frequency: it is the first i whose prefix sum passes a draw r
   * in [0, sum).
   */
  method Discrete(f: seq<int>) returns (r: Result<int>)
    ensures r.Err? <==> (exists k :: 0 <= k < |f| && f[k] < 0) || Sum(f) == 0 || Sum(f) >= IntMax
    ensures r.Err? ==> r.fault == IllegalArgument
    ensures r.Ok? ==> 0 <= r.value < |f| && f[r.value] > 0
  {
    var sum := 0;
    var i := 0;
    while i < |f|
      invariant 0 <= i <= |f| && sum == Sum(f[..i])
      invariant forall k :: 0 <= k < i ==> f[k] >= 0
    {
      if f[i] < 0 {
        return Err(IllegalArgument);
      }
      assert f[..i + 1][..i] == f[..i];
      sum := sum + f[i];
      i := i + 1;
    }
    assert f[..i] == f;
    SumPrefixBound(f, |f|);
    if sum == 0 || sum >= IntMax {
      return Err(IllegalArgument);
    }
    var u := Uniform(sum);
    var draw := u.value;
    sum := 0;
    i := 0;
    while i < |f|
      invariant 0 <= i <= |f| && sum == Sum(f[..i]) && sum <= draw
    {
      assert f[..i + 1][..i] == f[..i];
      sum := sum + f[i];
      if sum > draw {
        return Ok(i);
      }
      i := i + 1;
    }
    assert false;
  }

  /**
   * shuffle(a, lo, hi): for each i in [lo, hi), a[i] is swapped with a[r] for a
   * drawn r in [i, hi).  The whole-array shuffle(a) is shuffle(a, 0, a.length).
   */
  method Shuffle<T>(a: array<T>, lo: int, hi: int)
    requires 0 <= lo <= hi <= a.Length
    modifies a
    ensures multiset(a[lo..hi]) == old(multiset(a[lo..hi]))
    ensures a[..lo] == old(a[..lo]) && a[hi..] == old(a[hi..])
  {
    var i := lo;
    while i < hi
      invariant lo <= i <= hi
      invariant multiset(a[lo..hi]) == old(multiset(a[lo..hi]))
      invariant a[..lo] == old(a[..lo]) && a[hi..] == old(a[hi..])
    {
      var u := Uniform(hi - i);
      var r := i + u.value;
      SwapInRange(a, lo, hi, i, r);
      i := i + 1;
    }
  }

  /** One exchange of the shuffle: the cells outside [lo, hi) and the multiset inside stay as they were. */
  method SwapInRange<T>(a: array<T>, lo: int, hi: int, i: int, r: int)
    requires 0 <= lo <= i < hi <= a.Length && lo <= r < hi
    modifies a
    ensures a[..] == old(a[..])[i := old(a[r])][r := old(a[i])]
    ensures multiset(a[lo..hi]) == old(multiset(a[lo..hi]))
    ensures a[..lo] == old(a[..lo]) && a[hi..] == old(a[hi..])
  {
    ghost var s := a[..];
    a[i], a[r] := a[r], a[i];
    SwapKeepsSlice(s, lo, hi, i, r);
  }

  /** Exchanging two cells inside [lo, hi) permutes that slice and leaves the rest alone. */
  lemma SwapKeepsSlice<T>(s: seq<T>, lo: int, hi: int, i: int, r: int)
    requires 0 <= lo <= i < hi <= |s| && lo <= r < hi
    ensures var t := s[i := s[r]][r := s[i]];
            multiset(t[lo..hi]) == multiset(s[lo..hi]) && t[..lo] == s[..lo] && t[hi..] == s[hi..]
  {
    var t := s[i := s[r]][r := s[i]];
    var u := s[lo..hi];
    assert t[lo..hi] == u[i - lo := u[r - lo]][r - lo := u[i - lo]];
  }

  /**
   * permutation(n): 0, 1, ..., n-1 in a fresh array, shuffled; a negative n is
   * an illegal argument.
   */
  method Permutation(n: int) returns (r: Result<array<int>>)
    ensures r.Err? <==> n < 0
    ensures r.Err? ==> r.fault == IllegalArgument
    ensures r.Ok? ==> fresh(r.value) && r.value.Length == n && multiset(r.value[..]) == multiset(Range(n))
  {
    if n < 0 {
      return Err(IllegalArgument);
    }
    var perm := new int[n];
    var i := 0;
    while i < n
      invariant 0 <= i <= n && perm[..i] == Range(i)
    {
      perm[i] := i;
      assert perm[..i + 1] == perm[..i] + [i];
      i := i + 1;
    }
    assert perm[..] == perm[0..n] && perm[..n] == Range(n);
    Shuffle(perm, 0, n);
    assert perm[..] == perm[0..n];
    return Ok(perm);
  }

  /** Every value of a permutation of 0..n-1 occurs in it. */
  lemma PermutationCoversRange(p: seq<int>, n: nat)
    requires multiset(p) == multiset(Range(n))
    ensures |p| == n && forall x :: 0 <= x < n <==> x in p
  {
    assert |multiset(p)| == |multiset(Range(n))|;
    forall x ensures 0 <= x < n <==> x in p {
      assert x in p <==> x in multiset(p);
      assert x in Range(n) <==> x in multiset(Range(n));
      if 0 <= x < n {
        assert Range(n)[x] == x;
      }
    }
  }

  // ---------------------------------------------------------------------------
  // MinPriorityQueue: a binary min-heap of keys in pq[1..n]; pq[0] and every
  // slot beyond n hold null (None).  Keys use their natural order.
  // ---------------------------------------------------------------------------

  /** Both slots hold keys and the first is not greater than the second. */
  predicate Le(a: Option<int>, b: Option<int>)
  {
    a.Some? && b.Some? && a.value <= b.value
  }

  /** Slots 1..n hold keys. */
  ghost predicate KeysIn(s: seq<Option<int>>, n: int)
  {
    0 <= n < |s| && forall i :: 1 <= i <= n ==> s[i].Some?
  }

  /** Slot 0 is empty, slots 1..n hold keys, and the slots after n are empty. */
  ghost predicate HeapShape(s: seq<Option<int>>, n: int)
  {
    KeysIn(s, n) && s[0] == None && forall i :: n < i < |s| ==> s[i] == None
  }

  /** Every key in 2..n is at least its parent's. */
  ghost predicate HeapOrdered(s: seq<Option<int>>, n: int)
    requires 0 <= n < |s|
  {
    forall j :: 2 <= j <= n ==> Le(s[j / 2], s[j])
  }

  /** Every element of m is a key no smaller than x. */
  ghost predicate AtMost(x: int, m: multiset<Option<int>>)
  {
    forall y :: y in m ==> y.Some? && x <= y.value
  }

  /** The keys held in slots 1..n. */
  ghost function Keys(s: seq<Option<int>>, n: int): multiset<Option<int>>
    requires 0 <= n < |s|
  {
    multiset(s[1..n + 1])
  }

  /** s and t agree on slot 0 and on every slot after n. */
  ghost predicate Outside(s: seq<Option<int>>, t: seq<Option<int>>, n: int)
    requires 0 <= n < |s|
  {
    |s| == |t| && s[0] == t[0] && s[n + 1..] == t[n + 1..]
  }

  /** Exchanging two slots in 1..n keeps the keys of 1..n, the slots outside, and the shape. */
  lemma SwapKeeps(s: seq<Option<int>>, n: int, a: int, b: int)
    requires KeysIn(s, n) && 1 <= a <= n && 1 <= b <= n
    ensures var t := s[a := s[b]][b := s[a]];
            KeysIn(t, n) && Keys(t, n) == Keys(s, n) && Outside(t, s, n)
  {
    SwapKeepsSlice(s, 1, n + 1, a, b);
  }

  /** Slots 1..n may change while the shape around them is kept. */
  lemma ShapeKept(s: seq<Option<int>>, t: seq<Option<int>>, n: int)
    requires HeapShape(t, n) && KeysIn(s, n) && Outside(s, t, n)
    ensures HeapShape(s, n)
  {
    forall i | n < i < |s| ensures s[i] == None {
      assert s[i] == s[n + 1..][i - n - 1] == t[n + 1..][i - n - 1];
    }
  }

  /** Heap order puts a smallest key at the root. */
  lemma {:induction false} RootIsMin(s: seq<Option<int>>, n: int, k: int)
    requires KeysIn(s, n) && HeapOrdered(s, n) && 1 <= k <= n
    ensures s[1].value <= s[k].value
    decreases k
  {
    if k > 1 {
      RootIsMin(s, n, k / 2);
      assert Le(s[k / 2], s[k]);
    }
  }

  lemma MinAtRoot(s: seq<Option<int>>, n: int)
    requires KeysIn(s, n) && HeapOrdered(s, n) && 1 <= n
    ensures AtMost(s[1].value, multiset(s[1..n + 1]))
  {
    forall y | y in multiset(s[1..n + 1]) ensures y.Some? && s[1].value <= y.value {
      var k :| 0 <= k < n && s[1..n + 1][k] == y;
      RootIsMin(s, n, k + 1);
    }
  }

  /** swim's loop invariant: ordered except on the edge into k, and k's parent is at most k's children. */
  ghost predicate SwimInv(s: seq<Option<int>>, n: int, k: int)
  {
    1 <= k <= n < |s|
    && (forall j :: 2 <= j <= n && j != k ==> Le(s[j / 2], s[j]))
    && (k > 1 ==> forall j :: 2 <= j <= n && j / 2 == k ==> Le(s[k / 2], s[j]))
  }

  /** One exchange of swim moves the defect one level up. */
  lemma SwimStep(s: seq<Option<int>>, n: int, k: int)
    requires KeysIn(s, n) && SwimInv(s, n, k) && k > 1
    requires s[k / 2].value > s[k].value
    ensures KeysIn(s[k := s[k / 2]][k / 2 := s[k]], n)
    ensures SwimInv(s[k := s[k / 2]][k / 2 := s[k]], n, k / 2)
  {
    var p := k / 2;
    var t := s[k := s[p]][p := s[k]];
    forall j | 2 <= j <= n && j != p ensures Le(t[j / 2], t[j]) {
      if j == k {
      } else if j / 2 == k {
        assert Le(s[p], s[j]);
      } else if j / 2 == p {
        assert Le(s[p], s[j]);
      } else {
        assert Le(s[j / 2], s[j]);
      }
    }
    if p > 1 {
      forall j | 2 <= j <= n && j / 2 == p ensures Le(t[p / 2], t[j]) {
        assert Le(s[p / 2], s[p]);
        if j != k {
          assert Le(s[p], s[j]);
        }
      }
    }
  }

  /** sink's loop invariant: ordered except on the edges out of k, and k's parent is at most k's children. */
  ghost predicate SinkInv(s: seq<Option<int>>, n: int, k: int)
  {
    1 <= k && (k <= n || k == 1) && n < |s|
    && (forall j :: 2 <= j <= n && j / 2 != k ==> Le(s[j / 2], s[j]))
    && (k > 1 ==> forall j :: 2 <= j <= n && j / 2 == k ==> Le(s[k / 2], s[j]))
  }

  /** c is a child of k holding a smallest key among k's children. */
  ghost predicate MinChild(s: seq<Option<int>>, n: int, k: int, c: int)
    requires KeysIn(s, n)
  {
    c / 2 == k && 2 <= c <= n && forall j :: 2 <= j <= n && j / 2 == k ==> s[c].value <= s[j].value
  }

  /** One exchange of sink with the smaller child c moves the defect one level down. */
  lemma SinkStep(s: seq<Option<int>>, n: int, k: int, c: int)
    requires KeysIn(s, n) && SinkInv(s, n, k)
    requires MinChild(s, n, k, c) && s[k].value > s[c].value
    ensures KeysIn(s[k := s[c]][c := s[k]], n)
    ensures SinkInv(s[k := s[c]][c := s[k]], n, c)
  {
    var t := s[k := s[c]][c := s[k]];
    forall j | 2 <= j <= n && j / 2 != c ensures Le(t[j / 2], t[j]) {
      if j == k {
        assert Le(s[k / 2], s[c]);
      } else if j / 2 == k {
      } else {
        assert Le(s[j / 2], s[j]);
      }
    }
    forall j | 2 <= j <= n && j / 2 == c ensures Le(t[c / 2], t[j]) {
      assert Le(s[c], s[j]);
    }
  }

  /** insert's first step: the new key in slot m + 1 leaves only the edge into it to repair. */
  lemma InsertStart(s: seq<Option<int>>, m: int, x: int)
    requires HeapShape(s, m) && HeapOrdered(s, m) && m + 1 < |s|
    ensures HeapShape(s[m + 1 := Some(x)], m + 1) && SwimInv(s[m + 1 := Some(x)], m + 1, m + 1)
    ensures Keys(s[m + 1 := Some(x)], m + 1) == Keys(s, m) + multiset{Some(x)}
  {
    var t := s[m + 1 := Some(x)];
    assert t[1..m + 2] == s[1..m + 1] + [Some(x)];
    forall j | 2 <= j <= m + 1 && j != m + 1 ensures Le(t[j / 2], t[j]) {
      assert Le(s[j / 2], s[j]);
    }
  }

  /** delMin's first step: the last key moved to the root leaves only the edges out of the root to repair. */
  lemma DelMinStart(s: seq<Option<int>>, m: int)
    requires KeysIn(s, m) && HeapOrdered(s, m) && 1 <= m
    ensures var t := s[1 := s[m]][m := s[1]];
            KeysIn(t, m - 1) && SinkInv(t, m - 1, 1)
            && Keys(t, m - 1) == Keys(s, m) - multiset{s[1]}
  {
    var t := s[1 := s[m]][m := s[1]];
    SwapKeepsSlice(s, 1, m + 1, 1, m);
    assert t[1..m + 1] == t[1..m] + [s[1]];
    forall j | 2 <= j <= m - 1 && j / 2 != 1 ensures Le(t[j / 2], t[j]) {
      assert Le(s[j / 2], s[j]);
    }
  }

  /** delMin's last step: nulling the freed slot m restores the shape of a heap of m - 1 keys. */
  lemma RemoveRootEnd(s: seq<Option<int>>, p: seq<Option<int>>, m: int)
    requires HeapShape(s, m) && 1 <= m
    requires KeysIn(p, m - 1) && HeapOrdered(p, m - 1) && Outside(p, s[1 := s[m]][m := s[1]], m - 1)
    ensures HeapShape(p[m := None], m - 1) && HeapOrdered(p[m := None], m - 1)
    ensures Keys(p[m := None], m - 1) == Keys(p, m - 1)
  {
    var t := s[1 := s[m]][m := s[1]];
    var u := p[m := None];
    assert u[1..m] == p[1..m];
    forall i | m < i < |u| ensures u[i] == None {
      assert u[i] == p[m..][i - m] == t[m..][i - m] == s[i];
    }
    forall j | 2 <= j <= m - 1 ensures Le(u[j / 2], u[j]) {
      assert Le(p[j / 2], p[j]);
    }
  }

  /** isMinHeapOrdered(k): the subtree of pq[1..n] rooted at k is heap ordered. */
  function OrderedFrom(s: seq<Option<int>>, n: int, k: int): bool
    requires KeysIn(s, n) && 1 <= k
    decreases n + 1 - k
  {
    if k > n then true
    else if 2 * k <= n && s[k].value > s[2 * k].value then false
    else if 2 * k + 1 <= n && s[k].value > s[2 * k + 1].value then false
    else OrderedFrom(s, n, 2 * k) && OrderedFrom(s, n, 2 * k + 1)
  }

  /** j lies in the subtree rooted at k: halving j repeatedly reaches k. */
  ghost predicate Desc(j: int, k: int)
    requires 1 <= k
    decreases j
  {
    if j < k then false else if j == k then true else Desc(j / 2, k)
  }

  lemma {:induction false} DescSplit(j: int, k: int)
    requires 1 <= k < j
    ensures Desc(j, k) <==> Desc(j, 2 * k) || Desc(j, 2 * k + 1)
    decreases j
  {
    if j / 2 > k {
      DescSplit(j / 2, k);
    }
  }

  lemma {:induction false} DescRoot(j: int)
    requires 1 <= j
    ensures Desc(j, 1)
    decreases j
  {
    if j > 1 {
      DescRoot(j / 2);
    }
  }

  /** Every edge inside the subtree rooted at k is ordered. */
  ghost predicate SubtreeOrdered(s: seq<Option<int>>, n: int, k: int)
    requires KeysIn(s, n) && 1 <= k
  {
    forall j :: k < j <= n && Desc(j, k) ==> Le(s[j / 2], s[j])
  }

  lemma {:induction false} OrderedFromIff(s: seq<Option<int>>, n: int, k: int)
    requires KeysIn(s, n) && 1 <= k
    ensures OrderedFrom(s, n, k) <==> SubtreeOrdered(s, n, k)
    decreases n + 1 - k
  {
    if k <= n {
      var l, r := 2 * k, 2 * k + 1;
      OrderedFromIff(s, n, l);
      OrderedFromIff(s, n, r);
      assert Desc(l, k) && Desc(r, k);
      if SubtreeOrdered(s, n, k) {
        forall j | l < j <= n && Desc(j, l) ensures Le(s[j / 2], s[j]) {
          DescSplit(j, k);
        }
        forall j | r < j <= n && Desc(j, r) ensures Le(s[j / 2], s[j]) {
          DescSplit(j, k);
        }
        if l <= n { assert Le(s[l / 2], s[l]); }
        if r <= n { assert Le(s[r / 2], s[r]); }
      } else {
        var j :| k < j <= n && Desc(j, k) && !Le(s[j / 2], s[j]);
        DescSplit(j, k);
        if j == l || j == r {
        } else if Desc(j, l) {
          assert !SubtreeOrdered(s, n, l);
        } else {
          assert !SubtreeOrdered(s, n, r);
        }
      }
    }
  }

  /** The recursive check from the root agrees with heap order. */
  lemma OrderedFromRoot(s: seq<Option<int>>, n: int)
    requires KeysIn(s, n)
    ensures OrderedFrom(s, n, 1) <==> HeapOrdered(s, n)
  {
    OrderedFromIff(s, n, 1);
    forall j | 1 < j <= n ensures Desc(j, 1) {
      DescRoot(j);
    }
  }

  class MinPQ {
    var pq: array<Option<int>>
    var n: int

    ghost predicate Valid()
      reads this, pq
    {
      HeapShape(pq[..], n) && HeapOrdered(pq[..], n)
    }

    /** The keys on the queue. */
    ghost function Contents(): multiset<Option<int>>
      reads this, pq
      requires 0 <= n < pq.Length
    {
      Keys(pq[..], n)
    }

    /** MinPriorityQueue(initCapacity): an empty queue over initCapacity + 1 slots. */
    constructor(initCapacity: int)
      requires initCapacity >= 0
      ensures Valid() && n == 0 && pq.Length == initCapacity + 1 && fresh(pq)
    {
      pq := new Option<int>[initCapacity + 1](_ => None);
      n := 0;
    }

    /** min(): a smallest key; an empty queue fails the underflow assertion. */
    function Min(): (r: Result<int>)
      reads this, pq
      requires Valid()
      ensures r.Err? <==> n == 0
      ensures r.Err? ==> r.fault == AssertionFailed
      ensures r.Ok? ==> Some(r.value) in Contents() && AtMost(r.value, Contents())
    {
      if n == 0 then Err(AssertionFailed)
      else
        MinAtRoot(pq[..], n);
        assert pq[..][1..n + 1][0] == pq[1];
        Ok(pq[1].value)
    }

    /** resize(capacity): the keys move to a fresh array of the given length. */
    method Resize(capacity: int)
      requires Valid() && capacity > n
      modifies this
      ensures Valid() && n == old(n) && fresh(pq) && pq.Length == capacity
      ensures pq[..n + 1] == old(pq[..n + 1]) && Contents() == old(Contents())
    {
      var temp := new Option<int>[capacity](_ => None);
      assert n < pq.Length;
      var i := 1;
      while i <= n
        invariant 1 <= i <= n + 1 && temp.Length == capacity && unchanged(this)
        invariant forall t :: 1 <= t < i ==> temp[t] == pq[t]
        invariant forall t :: t == 0 || i <= t < capacity ==> temp[t] == None
      {
        temp[i] := pq[i];
        i := i + 1;
      }
      assert temp[..n + 1] == pq[..n + 1];
      assert temp[..][1..n + 1] == pq[..][1..n + 1];
      pq := temp;
      assert forall j :: 2 <= j <= n ==> pq[j / 2] == old(pq[j / 2]) && pq[j] == old(pq[j]);
    }

    /** swim(k): exchange k with its parent while the parent is greater. */
    method Swim(k: int)
      requires KeysIn(pq[..], n) && SwimInv(pq[..], n, k)
      modifies pq
      ensures KeysIn(pq[..], n) && HeapOrdered(pq[..], n)
      ensures Keys(pq[..], n) == Keys(old(pq[..]), n) && Outside(pq[..], old(pq[..]), n)
    {
      ghost var start := pq[..];
      var i := k;
      while i > 1 && pq[i / 2].value > pq[i].value
        invariant KeysIn(pq[..], n) && SwimInv(pq[..], n, i)
        invariant Keys(pq[..], n) == Keys(start, n) && Outside(pq[..], start, n)
        decreases i
      {
        SwimStep(pq[..], n, i);
        Exch(i, i / 2);
        i := i / 2;
      }
    }

    /** sink(k): exchange k with its smaller child while k is greater than it. */
    method Sink(k: int)
      requires KeysIn(pq[..], n) && SinkInv(pq[..], n, k)
      modifies pq
      ensures KeysIn(pq[..], n) && HeapOrdered(pq[..], n)
      ensures Keys(pq[..], n) == Keys(old(pq[..]), n) && Outside(pq[..], old(pq[..]), n)
    {
      ghost var start := pq[..];
      var i := k;
      while 2 * i <= n
        invariant KeysIn(pq[..], n) && SinkInv(pq[..], n, i)
        invariant Keys(pq[..], n) == Keys(start, n) && Outside(pq[..], start, n)
        decreases n - i
      {
        var j := SmallerChild(i);
        if pq[i].value <= pq[j].value {
          break;
        }
        SinkStep(pq[..], n, i, j);
        Exch(i, j);
        i := j;
      }
    }

    /** each(i, j): exchange two slots of the heap. */
    method Exch(i: int, j: int)
      requires KeysIn(pq[..], n) && 1 <= i <= n && 1 <= j <= n
      modifies pq
      ensures pq[..] == old(pq[..])[i := old(pq[j])][j := old(pq[i])]
      ensures KeysIn(pq[..], n) && Keys(pq[..], n) == Keys(old(pq[..]), n) && Outside(pq[..], old(pq[..]), n)
    {
      ghost var s := pq[..];
      pq[i], pq[j] := pq[j], pq[i];
      assert pq[..] == s[i := s[j]][j := s[i]];
      SwapKeeps(s, n, i, j);
    }

    /** The child of k that sink compares against: the right one only when it is strictly smaller. */
    method SmallerChild(k: int) returns (j: int)
      requires KeysIn(pq[..], n) && 1 <= k && 2 * k <= n
      ensures MinChild(pq[..], n, k, j)
    {
      j := 2 * k;
      if j < n && pq[j].value > pq[j + 1].value {
        j := j + 1;
      }
    }

    /** insert(x): grow the array when full, put x in slot n + 1 and swim it up. */
    method Insert(x: int)
      requires Valid()
      modifies this, pq
      ensures Valid() && n == old(n) + 1
      ensures Contents() == old(Contents()) + multiset{Some(x)}
      ensures pq == old(pq) || fresh(pq)
    {
      if n == pq.Length - 1 {
        Resize(2 * pq.Length);
      }
      ghost var t := pq[..][n + 1 := Some(x)];
      InsertStart(pq[..], n, x);
      Store(n + 1, Some(x));
      n := n + 1;
      Swim(n);
      ShapeKept(pq[..], t, n);
    }

    /** delMin(): remove and return a smallest key; an empty queue fails the underflow assertion. */
    method DelMin() returns (r: Result<int>)
      requires Valid()
      modifies this, pq
      ensures Valid()
      ensures pq == old(pq) || fresh(pq)
      ensures r.Err? <==> old(n) == 0
      ensures r.Err? ==> r.fault == AssertionFailed && n == old(n) && Contents() == old(Contents())
      ensures r.Ok? ==> n == old(n) - 1 && Some(r.value) in old(Contents())
      ensures r.Ok? ==> AtMost(r.value, old(Contents()))
      ensures r.Ok? ==> Contents() == old(Contents()) - multiset{Some(r.value)}
    {
      if n == 0 {
        return Err(AssertionFailed);
      }
      MinAtRoot(pq[..], n);
      var min := pq[1];
      assert pq[..][1..n + 1][0] == min;
      RemoveRoot();
      if n > 0 && n == (pq.Length - 1) / 4 {
        Resize(pq.Length / 2);
      }
      return Ok(min.value);
    }

    /** delMin's exchange of the root with the last key, decrement of n, sink and nulling of the freed slot. */
    method RemoveRoot()
      requires Valid() && n >= 1
      modifies this, pq
      ensures Valid() && pq == old(pq) && n == old(n) - 1
      ensures Contents() == old(Contents()) - multiset{old(pq[1])}
    {
      ghost var s := pq[..];
      DetachRoot();
      Sink(1);
      ghost var p := pq[..];
      RemoveRootEnd(s, p, n + 1);
      Store(n + 1, None);
    }

    /** each(1, n--): the last key moves to the root and the old root leaves the heap's range. */
    method DetachRoot()
      requires Valid() && n >= 1
      modifies this, pq
      ensures pq == old(pq) && n == old(n) - 1
      ensures pq[..] == old(pq[..][1 := pq[n]][n := pq[1]])
      ensures KeysIn(pq[..], n) && SinkInv(pq[..], n, 1)
      ensures Keys(pq[..], n) == old(Contents()) - multiset{old(pq[1])}
    {
      DelMinStart(pq[..], n);
      Exch(1, n);
      n := n - 1;
    }

    /** A single slot write, pq[i] = v. */
    method Store(i: int, v: Option<int>)
      requires 0 <= i < pq.Length
      modifies pq
      ensures pq[..] == old(pq[..])[i := v]
    {
      pq[i] := v;
    }

    /** isMinHeap(): the null checks on slot 0 and beyond n, then isMinHeapOrdered(1). */
    method IsMinHeap() returns (b: bool)
      requires 0 <= n < pq.Length
      ensures b <==> Valid()
    {
      var i := 1;
      while i <= n
        invariant 1 <= i <= n + 1
        invariant forall t :: 1 <= t < i ==> pq[t].Some?
      {
        if pq[i].None? {
          return false;
        }
        i := i + 1;
      }
      i := n + 1;
      while i < pq.Length
        invariant n + 1 <= i <= pq.Length
        invariant forall t :: n < t < i ==> pq[t] == None
      {
        if pq[i] != None {
          return false;
        }
        i := i + 1;
      }
      if pq[0] != None {
        return false;
      }
      OrderedFromRoot(pq[..], n);
      return OrderedFrom(pq[..], n, 1);
    }
  }

  /** The queue's iterator: a copy built by inserting every key, drained by delMin. */
  class HeapIterator {
    var copy: MinPQ

    ghost predicate Valid()
      reads this, copy, copy.pq
    {
      copy.Valid()
    }

    constructor(q: MinPQ)
      requires q.Valid()
      ensures Valid() && fresh(copy) && fresh(copy.pq)
      ensures copy.Contents() == q.Contents()
    {
      var c := new MinPQ(q.n);
      var i := 1;
      while i <= q.n
        invariant 1 <= i <= q.n + 1
        invariant fresh(c) && fresh(c.pq) && c.Valid()
        invariant c.Contents() == multiset(q.pq[1..i])
      {
        assert q.pq[1..i + 1] == q.pq[1..i] + [q.pq[i]];
        c.Insert(q.pq[i].value);
        i := i + 1;
      }
      copy := c;
    }

    /** hasNext(): keys remain. */
    function HasNext(): (b: bool)
      reads this, copy, copy.pq
      requires Valid()
      ensures b <==> copy.Contents() != multiset{}
    {
      copy.n != 0
    }

    /**
     * next(): the smallest remaining key, and no key left after it is smaller,
     * so the keys come out in ascending order; NoSuchElement once drained.
     */
    method Next() returns (r: Result<int>)
      requires Valid()
      modifies copy, copy.pq
      ensures Valid()
      ensures r.Err? <==> old(copy.Contents()) == multiset{}
      ensures r.Err? ==> r.fault == NoSuchElement
      ensures r.Ok? ==> Some(r.value) in old(copy.Contents()) && AtMost(r.value, copy.Contents())
      ensures r.Ok? ==> copy.Contents() == old(copy.Contents()) - multiset{Some(r.value)}
    {
      if copy.n == 0 {
        return Err(NoSuchElement);
      }
      r := copy.DelMin();
    }
  }
}
