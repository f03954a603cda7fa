/**
 The `DisjointSet` class: two arrays of fixed length N (`parent`, `rank`)
 and a step counter, updated in place. Each method is proved against the
 functions of module UnionFind applied to the abstract state Model().
 */
module DisjointSets {
  import opened UnionFind

  class DisjointSet {
    var parent: array<int>
    var rank: array<nat>
    var stepCount: nat

    /** The abstract state: the current contents of both arrays. */
    function Model(): Forest
      reads this, parent, rank
    {
      Forest(parent[..], rank[..])
    }

    ghost predicate Valid()
      reads this, parent, rank
    {
      Model().Valid()
    }

    /** N singleton sets, all ranks 0, no steps counted. */
    constructor (n: nat)
      ensures Valid() && fresh(parent) && fresh(rank)
      ensures Model() == Singletons(n)
      ensures stepCount == 0
    {
      var p := new int[n];
      var i := 0;
      while i < n
        invariant 0 <= i <= n
        invariant forall j :: 0 <= j < i ==> p[j] == j
      {
        p[i] := i;
        i := i + 1;
      }
      parent := p;
      rank := new nat[n](_ => 0);
      stepCount := 0;
      new;
      assert parent[..] == Singletons(n).parent;
      assert rank[..] == Singletons(n).rank;
    }

    /** Returns u's root; afterwards every node on u's old path points at that
        root and nothing else moved (Compress), and one step was counted per
        node visited, root included. */
    method Find(u: int) returns (r: int)
      requires Valid() && 0 <= u < parent.Length
      modifies this`stepCount, parent
      ensures Valid()
      ensures r == old(Model()).Root(u)
      ensures Model() == old(Model()).Compress(u)
      ensures forall x :: x in old(Model()).Path(u) ==> parent[x] == r
      ensures forall x :: 0 <= x < parent.Length ==> Model().Root(x) == old(Model()).Root(x)
      ensures stepCount == old(stepCount) + |old(Model()).Path(u)|
      decreases MaxRank(rank[..]) - rank[u]
    {
      ghost var f := Model();
      stepCount := stepCount + 1;
      if parent[u] != u {
        var root := Find(parent[u]);
        ghost var compressed := parent[..];
        parent[u] := root;
        assert parent[..] == compressed[u := root];
        f.CompressStep(u);
      } else {
        f.CompressAtRoot(u);
      }
      r := parent[u];
      forall x | x in f.Path(u)
        ensures parent[x] == r
      {
        assert parent[x] == f.Compress(u).parent[x];
      }
      f.CompressKeepsRoots(u);
    }

    /** Merges the sets of u and v by rank, after finding both roots. */
    method UnionSets(u: int, v: int)
      requires Valid() && 0 <= u < parent.Length && 0 <= v < parent.Length
      modifies this`stepCount, parent, rank
      ensures Valid()
      ensures Model() == old(Model()).Union(u, v)
      ensures stepCount == old(stepCount) + old(Model()).UnionSteps(u, v)
    {
      ghost var f := Model();
      var rootU := Find(u);
      var rootV := Find(v);
      ghost var f2 := Model();
      f.CompressKeepsRoots(u);
      assert rootV == f.Root(v);
      assert f2.parent[rootU] == rootU;
      LinkRoots(rootU, rootV);
    }

    /** The merging half of `unionSets`: one step and a union by rank when the
        two roots differ, nothing when they coincide. */
    method LinkRoots(rootU: int, rootV: int)
      requires Valid() && 0 <= rootU < parent.Length && 0 <= rootV < parent.Length
      requires parent[rootU] == rootU && parent[rootV] == rootV
      modifies this`stepCount, parent, rank
      ensures Valid()
      ensures Model() == old(Model()).Link(rootU, rootV)
      ensures stepCount == old(stepCount) + if rootU != rootV then 1 else 0
    {
      if rootU != rootV {
        stepCount := stepCount + 1;
        if rank[rootU] < rank[rootV] {
          parent[rootU] := rootV;
        } else if rank[rootU] > rank[rootV] {
          parent[rootV] := rootU;
        } else {
          parent[rootV] := rootU;
          rank[rootU] := rank[rootU] + 1;
        }
      }
    }

    method GetStepCount() returns (c: nat)
      ensures c == stepCount
    {
      c := stepCount;
    }

    /** Zeroes the counter; the forest is untouched. */
    method ResetStepCount()
      modifies this`stepCount
      ensures stepCount == 0
      ensures Model() == old(Model())
    {
      stepCount := 0;
    }
  }
}
