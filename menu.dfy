/**
 The operations of the interactive menu, reduced to what they do to the
 structure: each checks its operands against the size n of the session and
 only then calls the class, so an invalid element leaves everything as it
 was. Reading choices and printing answers is not modelled.
 */
module Menu {
  import opened UnionFind
  import opened DisjointSets

  datatype Option<T> = None | Some(value: T)

  predicate InRange(n: int, x: int)
  {
    0 <= x < n
  }

  /** Choice 1: union of two elements, or "Invalid elements." */
  method UnionCommand(ds: DisjointSet, n: int, u: int, v: int) returns (performed: bool)
    requires ds.Valid() && n == ds.parent.Length
    modifies ds`stepCount, ds.parent, ds.rank
    ensures ds.Valid()
    ensures performed <==> InRange(n, u) && InRange(n, v)
    ensures performed ==> ds.Model() == old(ds.Model()).Union(u, v)
                          && ds.stepCount == old(ds.stepCount) + old(ds.Model()).UnionSteps(u, v)
    ensures !performed ==> ds.Model() == old(ds.Model()) && ds.stepCount == old(ds.stepCount)
  {
    performed := InRange(n, u) && InRange(n, v);
    if performed {
      ds.UnionSets(u, v);
    }
  }

  /** Choice 2: the representative of an element, or "Invalid element." */
  method FindCommand(ds: DisjointSet, n: int, u: int) returns (root: Option<int>)
    requires ds.Valid() && n == ds.parent.Length
    modifies ds`stepCount, ds.parent
    ensures ds.Valid()
    ensures root.Some? <==> InRange(n, u)
    ensures root.Some? ==> root.value == old(ds.Model()).Root(u)
                           && ds.Model() == old(ds.Model()).Compress(u)
                           && ds.stepCount == old(ds.stepCount) + |old(ds.Model()).Path(u)|
    ensures root.None? ==> ds.Model() == old(ds.Model()) && ds.stepCount == old(ds.stepCount)
  {
    if InRange(n, u) {
      var r := ds.Find(u);
      root := Some(r);
    } else {
      root := None;
    }
  }

  /** Choice 3: whether two elements are connected, by comparing two finds
      (u's first), or "Invalid elements." */
  method ConnectedCommand(ds: DisjointSet, n: int, u: int, v: int) returns (connected: Option<bool>)
    requires ds.Valid() && n == ds.parent.Length
    modifies ds`stepCount, ds.parent
    ensures ds.Valid()
    ensures connected.Some? <==> InRange(n, u) && InRange(n, v)
    ensures connected.Some? ==>
              && connected.value == old(ds.Model()).SameSet(u, v)
              && ds.Model() == old(ds.Model()).Compress(u).Compress(v)
              && ds.stepCount == old(ds.stepCount) + |old(ds.Model()).Path(u)|
                                 + |old(ds.Model()).Compress(u).Path(v)|
    ensures connected.None? ==> ds.Model() == old(ds.Model()) && ds.stepCount == old(ds.stepCount)
  {
    if InRange(n, u) && InRange(n, v) {
      ghost var f := ds.Model();
      var ru := ds.Find(u);
      var rv := ds.Find(v);
      f.CompressKeepsRoots(u);
      connected := Some(ru == rv);
    } else {
      connected := None;
    }
  }
}
