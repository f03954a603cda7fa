/**
 The complexity analysis: a stepwise approximation of the inverse Ackermann
 function, and the fixed workload (chained unions, then a find on every
 element) whose step count is compared against it.
 */
module Analysis {
  import opened UnionFind
  import opened DisjointSets

  /** alpha(n) in tenths: 4.0, 4.3, 4.6, 5.0, 5.5 and 6.0 by size class. */
  function AlphaTenths(n: int): (a: nat)
    ensures 40 <= a <= 60
    ensures n <= 10 ==> a == 40
    ensures n > 100000 ==> a == 60
  {
    if n <= 10 then 40
    else if n <= 100 then 43
    else if n <= 1000 then 46
    else if n <= 10000 then 50
    else if n <= 100000 then 55
    else 60
  }

  /** The approximation never decreases as n grows. */
  lemma AlphaMonotone(m: int, n: int)
    requires m <= n
    ensures AlphaTenths(m) <= AlphaTenths(n)
  {
  }

  /** The approximation takes exactly six values. */
  lemma AlphaValues(n: int)
    ensures AlphaTenths(n) in {40, 43, 46, 50, 55, 60}
  {
  }

  /** The forest after the chained unions (0, 1), ..., (i - 1, i) on n
      elements: 0 .. i all point at 0, whose rank is 1 once anything was
      merged; the rest are untouched singletons. */
  function Chain(n: nat, i: nat): (f: Forest)
    ensures f.Valid() && |f.parent| == n
  {
    Forest(seq(n, j => if j <= i then 0 else j), seq(n, j => if j == 0 && i > 0 then 1 else 0))
  }

  /** In a chain forest a find on an already merged element visits it and 0
      (just 0 for 0 itself) and changes nothing. */
  lemma FindOnChain(n: nat, i: nat, k: nat)
    requires k <= i && k < n
    ensures Chain(n, i).Root(k) == 0
    ensures Chain(n, i).Compress(k) == Chain(n, i)
    ensures |Chain(n, i).Path(k)| == if k == 0 then 1 else 2
  {
    Chain(n, i).CompressFlat(k);
  }

  /** One iteration of the union loop: `unionSets(i, i + 1)` extends the
      chain by one element at a cost of 3 steps the first time and 4 after. */
  lemma ChainStep(n: nat, i: nat)
    requires i + 1 < n
    ensures Chain(n, i).Union(i, i + 1) == Chain(n, i + 1)
    ensures Chain(n, i).UnionSteps(i, i + 1) == if i == 0 then 3 else 4
  {
    var f := Chain(n, i);
    FindOnChain(n, i, i);
    f.CompressAtRoot(i + 1);
    assert f.Path(i + 1) == [i + 1];
    var g := f.Link(0, i + 1);
    assert g.parent == Chain(n, i + 1).parent;
    assert g.rank == Chain(n, i + 1).rank;
  }

  /** The index of the last element, 0 for the empty universe. */
  function Last(n: nat): nat
  {
    if n == 0 then 0 else n - 1
  }

  /** The union loop of `analyzeDisjointSet`: `unionSets(i, i + 1)` for
      i = 0 .. n - 2, on a fresh structure. It runs Last(n) times and leaves
      the full chain; the first union costs 3 steps and each later one 4. */
  method ChainUnions(ds: DisjointSet, n: nat) returns (ghost unions: nat)
    requires ds.Valid() && ds.Model() == Singletons(n)
    modifies ds`stepCount, ds.parent, ds.rank
    ensures ds.Valid() && ds.Model() == Chain(n, Last(n))
    ensures ds.stepCount == old(ds.stepCount) + if n <= 1 then 0 else 4 * (n - 1) - 1
    ensures unions == Last(n)
  {
    ghost var start := ds.stepCount;
    assert ds.Model() == Chain(n, 0);
    unions := 0;
    var i := 0;
    while i < n - 1
      invariant 0 <= i && (i == 0 || i <= n - 1) && unions == i
      invariant ds.Model() == Chain(n, i)
      invariant ds.stepCount == start + if i == 0 then 0 else 4 * i - 1
    {
      ChainStep(n, i);
      ds.UnionSets(i, i + 1);
      i := i + 1;
      unions := unions + 1;
    }
  }

  /** The find loop of `analyzeDisjointSet`: `find(i)` for i = 0 .. n - 1 on
      the full chain. It changes no pointer and costs 1 step for element 0
      and 2 for every other element. */
  method FindAll(ds: DisjointSet, n: nat) returns (ghost finds: nat)
    requires ds.Valid() && ds.Model() == Chain(n, Last(n))
    modifies ds`stepCount, ds.parent
    ensures ds.Valid() && ds.Model() == old(ds.Model())
    ensures ds.stepCount == old(ds.stepCount) + if n == 0 then 0 else 2 * n - 1
    ensures finds == n
  {
    ghost var start := ds.stepCount;
    finds := 0;
    var i := 0;
    while i < n
      invariant 0 <= i <= n && finds == i
      invariant ds.Model() == Chain(n, Last(n))
      invariant ds.stepCount == start + if i == 0 then 0 else 2 * i - 1
    {
      FindOnChain(n, Last(n), i);
      var _ := ds.Find(i);
      i := i + 1;
      finds := finds + 1;
    }
  }

  /** `analyzeDisjointSet(n)` up to its floating-point part: a fresh
      structure, a counter reset, the union loop, the find loop, and the
      counter read back as observedSteps. The ghost results record the loop
      trip counts and the final forest, in which every element points
      directly at 0. */
  method AnalyzeDisjointSet(n: nat) returns (observedSteps: nat, ghost unions: nat, ghost finds: nat, ghost final: Forest)
    ensures n == 0 ==> observedSteps == 0
    ensures n == 1 ==> observedSteps == 1
    ensures n >= 2 ==> observedSteps == 6 * (n - 1)
    ensures unions == Last(n) && finds == n
    ensures final.Valid() && |final.parent| == n
    ensures forall j :: 0 <= j < n ==> final.parent[j] == 0 && final.Root(j) == 0
  {
    var ds := new DisjointSet(n);
    ds.ResetStepCount();
    unions := ChainUnions(ds, n);
    finds := FindAll(ds, n);
    observedSteps := ds.GetStepCount();
    final := ds.Model();
    forall j | 0 <= j < n
      ensures final.parent[j] == 0 && final.Root(j) == 0
    {
      FindOnChain(n, Last(n), j);
    }
  }
}
