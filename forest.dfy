/**
 The abstract state of a disjoint-set structure: a parent forest over the
 elements 0 .. N-1 together with the rank of every element. The functions
 below give the meaning of the operations of the class in disjoint_set.dfy
 (what `find` and `unionSets` leave behind), and the lemmas state what the
 structure promises about them.
 */
module UnionFind {

  /** An upper bound of every entry of a rank sequence. */
  function MaxRank(s: seq<nat>): (m: nat)
    ensures forall i :: 0 <= i < |s| ==> s[i] <= m
  {
    if |s| == 0 then 0
    else
      var m := MaxRank(s[1..]);
      assert forall i :: 1 <= i < |s| ==> s[i] == s[1..][i - 1];
      if s[0] > m then s[0] else m
  }

  datatype Forest = Forest(parent: seq<int>, rank: seq<nat>)
  {
    /** Every parent pointer stays inside the universe, and the rank grows
        strictly along every parent edge. The second part makes the parent
        graph acyclic (see Acyclic) and gives Root its termination measure. */
    ghost predicate Valid()
    {
      && |rank| == |parent|
      && (forall x :: 0 <= x < |parent| ==> 0 <= parent[x] < |parent|)
      && (forall x :: 0 <= x < |parent| && parent[x] != x ==> rank[x] < rank[parent[x]])
    }

    /** The representative of x: the root reached by following parent links. */
    function Root(x: int): (r: int)
      requires Valid() && 0 <= x < |parent|
      ensures 0 <= r < |parent| && parent[r] == r
      ensures rank[x] <= rank[r]
      decreases MaxRank(rank) - rank[x]
    {
      if parent[x] == x then x else Root(parent[x])
    }

    /** The nodes `find(x)` visits, x first and its root last. */
    function Path(x: int): (p: seq<int>)
      requires Valid() && 0 <= x < |parent|
      ensures |p| >= 1 && p[0] == x && p[|p| - 1] == Root(x)
      ensures forall y :: y in p ==> 0 <= y < |parent| && Root(y) == Root(x)
      ensures forall y :: y in p ==> rank[x] <= rank[y]
      ensures forall y :: y in p && y != Root(x) ==> rank[y] < rank[Root(x)]
      decreases MaxRank(rank) - rank[x]
    {
      if parent[x] == x then [x]
      else
        [x] + Path(parent[x])
    }

    predicate SameSet(x: int, y: int)
      requires Valid() && 0 <= x < |parent| && 0 <= y < |parent|
    {
      Root(x) == Root(y)
    }

    /** The forest after path compression from u: every node on u's path
        points straight at u's root, every other pointer is as before. */
    function Compress(u: int): (f: Forest)
      requires Valid() && 0 <= u < |parent|
      ensures f.Valid() && |f.parent| == |parent| && f.rank == rank
      ensures forall x :: 0 <= x < |parent| && parent[x] == x ==> f.parent[x] == x
    {
      var r := Root(u);
      var p := Path(u);
      Forest(seq(|parent|, i requires 0 <= i < |parent| => if i in p then r else parent[i]), rank)
    }

    /** The root with the larger rank wins; on a tie the first one does. */
    function Winner(ru: int, rv: int): int
      requires |rank| == |parent| && 0 <= ru < |parent| && 0 <= rv < |parent|
    {
      if rank[ru] < rank[rv] then rv else ru
    }

    function Loser(ru: int, rv: int): int
      requires |rank| == |parent| && 0 <= ru < |parent| && 0 <= rv < |parent|
    {
      if rank[ru] < rank[rv] then ru else rv
    }

    /** Union by rank of two roots. */
    function Link(ru: int, rv: int): (f: Forest)
      requires Valid() && 0 <= ru < |parent| && 0 <= rv < |parent|
      requires parent[ru] == ru && parent[rv] == rv
      ensures f.Valid() && |f.parent| == |parent|
    {
      if ru == rv then this
      else if rank[ru] < rank[rv] then Forest(parent[ru := rv], rank)
      else if rank[ru] > rank[rv] then Forest(parent[rv := ru], rank)
      else Forest(parent[rv := ru], rank[ru := rank[ru] + 1])
    }

    /** The forest after `unionSets(u, v)`: find u, find v, link the roots. */
    function Union(u: int, v: int): (f: Forest)
      requires Valid() && 0 <= u < |parent| && 0 <= v < |parent|
      ensures f.Valid() && |f.parent| == |parent|
    {
      Compress(u).Compress(v).Link(Root(u), Root(v))
    }

    /** The steps `unionSets(u, v)` adds: one per node each find visits, and
        one more when two different sets are merged. */
    function UnionSteps(u: int, v: int): nat
      requires Valid() && 0 <= u < |parent| && 0 <= v < |parent|
    {
      |Path(u)| + |Compress(u).Path(v)| + (if Root(u) != Root(v) then 1 else 0)
    }

    // ---------------------------------------------------------------------
    // The parent graph

    /** x after k parent hops. */
    function Ancestor(x: int, k: nat): (y: int)
      requires Valid() && 0 <= x < |parent|
      ensures 0 <= y < |parent|
      decreases k
    {
      if k == 0 then x else Ancestor(parent[x], k - 1)
    }

    /** Rank never decreases along a chain of parent links, and strictly
        grows as soon as the chain leaves a non-root. */
    lemma {:induction false} AncestorRank(x: int, k: nat)
      requires Valid() && 0 <= x < |parent|
      ensures rank[x] <= rank[Ancestor(x, k)]
      ensures k > 0 && parent[x] != x ==> rank[x] < rank[Ancestor(x, k)]
      decreases k
    {
      if k > 0 {
        AncestorRank(parent[x], k - 1);
      }
    }

    /** The parent graph has no cycle other than the self-loops of roots. */
    lemma Acyclic(x: int, k: nat)
      requires Valid() && 0 <= x < |parent| && k > 0
      requires Ancestor(x, k) == x
      ensures parent[x] == x
    {
      AncestorRank(x, k);
    }

    /** Every element reaches its root after |Path(x)| - 1 hops. */
    lemma {:induction false} ReachesRoot(x: int)
      requires Valid() && 0 <= x < |parent|
      ensures Ancestor(x, |Path(x)| - 1) == Root(x)
      decreases MaxRank(rank) - rank[x]
    {
      if parent[x] != x {
        ReachesRoot(parent[x]);
      }
    }

    /** Consecutive nodes of a path are linked by a parent edge, and every node
        but the last is not a root. */
    lemma {:induction false} PathLinks(x: int, k: nat)
      requires Valid() && 0 <= x < |parent| && k + 1 < |Path(x)|
      ensures var p := Path(x); 0 <= p[k] < |parent| && parent[p[k]] == p[k + 1] != p[k]
      decreases MaxRank(rank) - rank[x]
    {
      var q := Path(parent[x]);
      assert Path(x) == [x] + q;
      if k > 0 {
        PathLinks(parent[x], k - 1);
      }
    }

    // ---------------------------------------------------------------------
    // Path compression

    /** Compressing from a root changes nothing. */
    lemma CompressAtRoot(u: int)
      requires Valid() && 0 <= u < |parent| && parent[u] == u
      ensures Compress(u) == this
      ensures |Path(u)| == 1
    {
      assert Path(u) == [u];
      assert Compress(u).parent == parent;
    }

    /** Compressing from u is compressing from u's parent, then pointing u at
        the root: the recursion of `find`. */
    lemma CompressStep(u: int)
      requires Valid() && 0 <= u < |parent| && parent[u] != u
      ensures Compress(u).parent == Compress(parent[u]).parent[u := Root(u)]
      ensures |Path(u)| == 1 + |Path(parent[u])|
    {
      var p, r := Path(parent[u]), Root(u);
      assert rank[u] < rank[parent[u]];
      assert u !in p;
      assert Path(u) == [u] + p;
      var before, after := Compress(parent[u]).parent[u := r], Compress(u).parent;
      forall i | 0 <= i < |parent|
        ensures after[i] == before[i]
      {
        assert i in Path(u) <==> i == u || i in p;
      }
    }

    /** When u's parent is already a root, compression changes nothing. */
    lemma CompressFlat(u: int)
      requires Valid() && 0 <= u < |parent| && parent[parent[u]] == parent[u]
      ensures Compress(u) == this
    {
      if parent[u] != u {
        assert Path(parent[u]) == [parent[u]];
        assert Path(u) == [u, parent[u]];
      } else {
        assert Path(u) == [u];
      }
      assert Compress(u).parent == parent;
    }

    /** Compression keeps the representative of x. */
    lemma {:induction false} CompressKeepsRoot(u: int, x: int)
      requires Valid() && 0 <= u < |parent| && 0 <= x < |parent|
      ensures Compress(u).Root(x) == Root(x)
      decreases MaxRank(rank) - rank[x]
    {
      var f := Compress(u);
      var r := Root(u);
      assert r in Path(u);
      if parent[x] == x {
      } else if x in Path(u) {
        assert f.parent[x] == r && f.parent[r] == r;
      } else {
        CompressKeepsRoot(u, parent[x]);
      }
    }

    /** Compression keeps every element's representative. */
    lemma CompressKeepsRoots(u: int)
      requires Valid() && 0 <= u < |parent|
      ensures forall x :: 0 <= x < |parent| ==> Compress(u).Root(x) == Root(x)
    {
      forall x | 0 <= x < |parent| {
        CompressKeepsRoot(u, x);
      }
    }

    // ---------------------------------------------------------------------
    // Linking and union

    /** After linking two roots, the elements of both sets have the winner as
        representative; everybody else keeps theirs. */
    lemma {:induction false} LinkRoot(ru: int, rv: int, x: int)
      requires Valid() && 0 <= ru < |parent| && 0 <= rv < |parent|
      requires parent[ru] == ru && parent[rv] == rv && 0 <= x < |parent|
      ensures Link(ru, rv).Root(x) ==
              if Root(x) == ru || Root(x) == rv then Winner(ru, rv) else Root(x)
      decreases MaxRank(rank) - rank[x]
    {
      var f := Link(ru, rv);
      if parent[x] == x {
        if ru != rv && x == Loser(ru, rv) {
          assert f.parent[x] == Winner(ru, rv);
          assert f.parent[Winner(ru, rv)] == Winner(ru, rv);
        }
      } else {
        assert f.parent[x] == parent[x];
        LinkRoot(ru, rv, parent[x]);
      }
    }

    /** The representatives after `unionSets(u, v)`. */
    lemma UnionRoots(u: int, v: int)
      requires Valid() && 0 <= u < |parent| && 0 <= v < |parent|
      ensures forall x :: 0 <= x < |parent| ==>
        Union(u, v).Root(x) ==
          if Root(x) == Root(u) || Root(x) == Root(v) then Winner(Root(u), Root(v)) else Root(x)
    {
      var f1 := Compress(u);
      var f2 := f1.Compress(v);
      CompressKeepsRoots(u);
      f1.CompressKeepsRoots(v);
      forall x | 0 <= x < |parent| {
        f2.LinkRoot(Root(u), Root(v), x);
      }
    }

    /** After `unionSets(u, v)` the two arguments share a representative. */
    lemma UnionJoins(u: int, v: int)
      requires Valid() && 0 <= u < |parent| && 0 <= v < |parent|
      ensures Union(u, v).SameSet(u, v)
      ensures Union(u, v).Root(u) in {Root(u), Root(v)}
    {
      UnionRoots(u, v);
    }

    /** Exactly what `unionSets(u, v)` does to the partition: x and y end up
        together iff they were together, or one was with u and the other
        with v. */
    lemma UnionSameSet(u: int, v: int, x: int, y: int)
      requires Valid() && 0 <= u < |parent| && 0 <= v < |parent|
      requires 0 <= x < |parent| && 0 <= y < |parent|
      ensures Union(u, v).SameSet(x, y) <==>
        SameSet(x, y) || (SameSet(x, u) && SameSet(y, v)) || (SameSet(x, v) && SameSet(y, u))
    {
      UnionRoots(u, v);
    }

    /** Sets that contain neither u nor v keep their representative. */
    lemma UnionUnrelated(u: int, v: int, x: int)
      requires Valid() && 0 <= u < |parent| && 0 <= v < |parent| && 0 <= x < |parent|
      requires !SameSet(x, u) && !SameSet(x, v)
      ensures Union(u, v).Root(x) == Root(x)
    {
      UnionRoots(u, v);
    }

    /** Linking two different roots puts the loser under the winner: the
        lower rank under the higher, on a tie rv under ru. Only a tie changes
        a rank, ru's, by one. */
    lemma LinkByRank(ru: int, rv: int)
      requires Valid() && 0 <= ru < |parent| && 0 <= rv < |parent|
      requires parent[ru] == ru && parent[rv] == rv && ru != rv
      ensures Link(ru, rv).parent == parent[Loser(ru, rv) := Winner(ru, rv)]
      ensures Link(ru, rv).rank == if rank[ru] == rank[rv] then rank[ru := rank[ru] + 1] else rank
    {
    }

    /** Union of two different sets: one step beyond the two finds, and after
        the finds' compression the loser root is linked under the winner, with
        u's root bumping its rank on a tie. */
    lemma UnionByRank(u: int, v: int)
      requires Valid() && 0 <= u < |parent| && 0 <= v < |parent|
      requires Root(u) != Root(v)
      ensures UnionSteps(u, v) == |Path(u)| + |Compress(u).Path(v)| + 1
      ensures Union(u, v).parent ==
              Compress(u).Compress(v).parent[Loser(Root(u), Root(v)) := Winner(Root(u), Root(v))]
      ensures Union(u, v).rank ==
              if rank[Root(u)] == rank[Root(v)] then rank[Root(u) := rank[Root(u)] + 1] else rank
    {
      Compress(u).Compress(v).LinkByRank(Root(u), Root(v));
    }

    /** Union of two elements already in one set: only the compression of the
        two finds happens; no rank and no representative changes. */
    lemma UnionSameRoot(u: int, v: int)
      requires Valid() && 0 <= u < |parent| && 0 <= v < |parent|
      requires SameSet(u, v)
      ensures Union(u, v) == Compress(u).Compress(v)
      ensures Union(u, v).rank == rank
      ensures forall x :: 0 <= x < |parent| ==> Union(u, v).Root(x) == Root(x)
      ensures UnionSteps(u, v) == |Path(u)| + |Compress(u).Path(v)|
    {
      UnionRoots(u, v);
    }

    /** Calling `unionSets(u, v)` a second time leaves every rank and every
        representative as the first call left them. */
    lemma UnionTwice(u: int, v: int)
      requires Valid() && 0 <= u < |parent| && 0 <= v < |parent|
      ensures var f := Union(u, v);
        && f.Union(u, v).rank == f.rank
        && forall x :: 0 <= x < |parent| ==> f.Union(u, v).Root(x) == f.Root(x)
    {
      var f := Union(u, v);
      UnionJoins(u, v);
      f.UnionSameRoot(u, v);
    }

    /** Union never separates elements that were together. */
    lemma UnionKeepsSameSet(u: int, v: int, x: int, y: int)
      requires Valid() && 0 <= u < |parent| && 0 <= v < |parent|
      requires 0 <= x < |parent| && 0 <= y < |parent| && SameSet(x, y)
      ensures Union(u, v).SameSet(x, y)
    {
      UnionSameSet(u, v, x, y);
    }
  }

  /** The state right after construction: every element its own root, rank 0. */
  function Singletons(n: nat): (f: Forest)
    ensures f.Valid() && |f.parent| == n
    ensures forall x :: 0 <= x < n ==> f.parent[x] == x && f.rank[x] == 0
    ensures forall x :: 0 <= x < n ==> f.Root(x) == x
  {
    Forest(seq(n, i => i), seq(n, _ => 0))
  }

  /** Initially two elements are connected only when they are equal. */
  lemma SingletonsApart(n: nat, x: int, y: int)
    requires 0 <= x < n && 0 <= y < n
    ensures Singletons(n).SameSet(x, y) <==> x == y
  {
  }

  /** Connectivity is an equivalence relation in every valid state. */
  lemma SameSetEquivalence(f: Forest, x: int, y: int, z: int)
    requires f.Valid() && 0 <= x < |f.parent| && 0 <= y < |f.parent| && 0 <= z < |f.parent|
    ensures f.SameSet(x, x)
    ensures f.SameSet(x, y) ==> f.SameSet(y, x)
    ensures f.SameSet(x, y) && f.SameSet(y, z) ==> f.SameSet(x, z)
  {
  }

  predicate InUniverse(n: nat, ops: seq<(int, int)>)
  {
    forall k :: 0 <= k < |ops| ==> 0 <= ops[k].0 < n && 0 <= ops[k].1 < n
  }

  /** The forest after a history of unions on a fresh structure of n elements. */
  function Replay(n: nat, ops: seq<(int, int)>): (f: Forest)
    requires InUniverse(n, ops)
    ensures f.Valid() && |f.parent| == n
  {
    if |ops| == 0 then Singletons(n)
    else Replay(n, ops[..|ops| - 1]).Union(ops[|ops| - 1].0, ops[|ops| - 1].1)
  }

  /** After any union history, every pair that was united is connected. */
  lemma {:induction false} ReplayConnects(n: nat, ops: seq<(int, int)>, k: nat)
    requires InUniverse(n, ops) && k < |ops|
    ensures Replay(n, ops).SameSet(ops[k].0, ops[k].1)
  {
    var last := |ops| - 1;
    var before := ops[..last];
    var f := Replay(n, before);
    if k == last {
      f.UnionJoins(ops[last].0, ops[last].1);
    } else {
      assert before[k] == ops[k];
      ReplayConnects(n, before, k);
      f.UnionKeepsSameSet(ops[last].0, ops[last].1, ops[k].0, ops[k].1);
    }
  }
}
