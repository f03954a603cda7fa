# Disjoint-set with path compression, union by rank and a step counter

The repository holds three C++ programs, `final.cpp`, `userchoice.cpp` and
`nno.cpp`. Each has a textually identical `DisjointSet` class (in
`userchoice.cpp` its line numbers are one lower). The class keeps two vectors
of length n, `parent` and `rank`, and an `int stepCount`:

- `find(u)` counts one step, recurses to the root and relinks `u` to the root
  on the way back (path compression);
- `unionSets(u, v)` finds both roots and, when they differ, counts one more
  step and links by rank (a tie puts v's root under u's root and bumps u's root's rank);
- `getStepCount` / `resetStepCount` read and zero the counter.

`final.cpp` and `nno.cpp` also contain `alphaApproximation`, a six-step
approximation of the inverse Ackermann function, and `analyzeDisjointSet(n)`,
which runs chained unions `(i, i + 1)` and then a `find` on every element of a
fresh instance, and reports the step count. The menus of `final.cpp` and
`userchoice.cpp` range-check their operands before calling the class.

The model has four modules:

- `UnionFind` (forest.dfy): the abstract state `Forest(parent, rank)` as
  sequences. `Valid()` says every pointer stays in range and the rank grows
  strictly along every parent edge. The functions say what the operations leave
  behind: `Root`, `Path` (the nodes `find` visits), `Compress`, `Link`, `Union`
  and `UnionSteps`. The lemmas cover acyclicity, preservation of
  representatives, the partition after a union, idempotence and the tie rule.
- `DisjointSets` (disjoint_set.dfy): the class `DisjointSet` with
  `parent: array<int>`, `rank: array<nat>` and `stepCount: nat`, updated in
  place. `Find` is recursive like the source. Its termination measure is
  `MaxRank(rank) - rank[u]`, which decreases because a non-root's parent has
  strictly higher rank. Every method's postcondition ties the new arrays and
  counter to the `UnionFind` functions of the old state. `UnionSets`' merging
  branch is the method `LinkRoots`.
- `Analysis` (analysis.dfy): `AlphaTenths`, and `AnalyzeDisjointSet` with its
  two loops (`ChainUnions`, `FindAll`). The observed step count is proved
  exact: 0 for n = 0, 1 for n = 1 and 6·(n − 1) for n ≥ 2 (30 for n = 6).
- `Menu` (menu.dfy): the range-checked union, find and connected commands of
  the menus.

Where the description of the system and the code differ, the model follows
the code:

- `find` counts one step per node visited (one per recursive frame), not one
  per call.
- Negative sizes and out-of-range indices are not reported as errors by the
  class. They are preconditions here, and the menu's checks are modelled in
  `Menu`.
- For n ≤ 1 the analysis simply runs the degenerate loops.

## Model

| member | source | states |
|---|---|---|
| UnionFind.Forest.Root | final.cpp:19-25 | the representative of x is in range and is a root (its parent is itself), with rank at least x's: every element reaches a root |
| UnionFind.Forest.Path | final.cpp:19-23 | the nodes find visits start at x and end at x's root; all share x's representative; every one but the root has rank strictly below the root's |
| UnionFind.Forest.PathLinks | final.cpp:21-22 | consecutive nodes of a path are joined by a parent edge, and every node but the last is not a root |
| UnionFind.Forest.Compress | final.cpp:21-22 | compression keeps the forest valid (rank strictly increasing along parent edges), keeps all ranks and never moves a root |
| UnionFind.Forest.AncestorRank | nno.cpp:31-40 | along any chain of parent links the rank never decreases, and it strictly grows once the chain leaves a non-root |
| UnionFind.Forest.Acyclic | nno.cpp:33-39 | the parent graph has no cycle: a node that returns to itself after k > 0 hops is a root |
| UnionFind.Forest.ReachesRoot | final.cpp:21-24 | following |Path(x)| - 1 parent links from x lands on Root(x) |
| UnionFind.Forest.CompressAtRoot | final.cpp:20-24 | find on a root changes nothing (and costs one step, its path being just the root) |
| UnionFind.Forest.CompressStep | final.cpp:21-22 | compressing from u equals compressing from u's parent and then pointing u at the root; u's path is one node longer than its parent's |
| UnionFind.Forest.CompressFlat | nno.cpp:19-25 | when u's parent is already a root, find(u) changes no pointer |
| UnionFind.Forest.CompressKeepsRoot | userchoice.cpp:18-24 | compression does not change the representative of any element x |
| UnionFind.Forest.CompressKeepsRoots | final.cpp:19-25 | after compression every element has the representative it had before |
| UnionFind.Forest.Link | final.cpp:31-41 | linking two roots by rank keeps the forest valid |
| UnionFind.Forest.LinkRoot | final.cpp:33-39 | after linking, members of both sets have the winning root as representative and all others keep theirs |
| UnionFind.Forest.Union | final.cpp:27-42 | the state after unionSets is a valid forest over the same universe |
| UnionFind.Forest.UnionRoots | final.cpp:27-42 | after unionSets(u, v), elements of u's or v's set have the winning root as representative; everybody else keeps theirs |
| UnionFind.Forest.UnionJoins | userchoice.cpp:26-41 | after unionSets(u, v), u and v share a representative, which is one of their old roots |
| UnionFind.Forest.UnionSameSet | nno.cpp:27-42 | after unionSets(u, v), x and y are connected iff they were, or one was with u and the other with v |
| UnionFind.Forest.UnionUnrelated | final.cpp:27-42 | elements in neither u's nor v's set keep their representative |
| UnionFind.Forest.LinkByRank | final.cpp:33-39 | linking two different roots puts the lower-rank root under the higher and, on a tie, v's root under u's root; only a tie changes a rank, u's root's, by exactly +1 |
| UnionFind.Forest.UnionByRank | final.cpp:31-40 | with different roots, exactly one step beyond the two finds; after their compression only the losing root's pointer changes (to the winner), and only a tie changes a rank (rank[rootU] + 1) |
| UnionFind.Forest.UnionSameRoot | final.cpp:28-31 | with equal roots only the two finds' compression happens: no rank or representative changes, and the steps are the two finds' |
| UnionFind.Forest.UnionTwice | userchoice.cpp:26-30 | repeating unionSets(u, v) changes no rank and no representative |
| UnionFind.Forest.UnionKeepsSameSet | userchoice.cpp:26-41 | a union never separates two connected elements |
| UnionFind.Singletons | final.cpp:11-17 | initially every element is its own parent and representative with rank 0, and the forest is valid |
| UnionFind.SingletonsApart | userchoice.cpp:10-16 | right after construction two elements are connected iff they are equal |
| UnionFind.SameSetEquivalence | userchoice.cpp:102 | the connected query is reflexive, symmetric and transitive in every valid state |
| UnionFind.Replay | userchoice.cpp:79-80 | any history of in-range unions on a fresh structure yields a valid forest over n elements |
| UnionFind.ReplayConnects | userchoice.cpp:101-102 | after any union history, every pair that was united is reported connected |
| DisjointSets.DisjointSet.constructor | final.cpp:11-17 | fresh arrays; no steps counted; parent[i] == i and rank[i] == 0 for every i |
| DisjointSets.DisjointSet.Find | final.cpp:19-25 | returns u's old root; u's whole old path now points at it, other pointers and ranks unchanged; representatives kept; |Path(u)| steps added |
| DisjointSets.DisjointSet.UnionSets | final.cpp:27-42 | the arrays become old.Union(u, v) and the counter grows by exactly UnionSteps(u, v); the forest stays valid |
| DisjointSets.DisjointSet.LinkRoots | final.cpp:31-41 | for two roots: one step and the rank-based link when they differ, nothing when equal |
| DisjointSets.DisjointSet.GetStepCount | final.cpp:44-46 | returns the counter and changes nothing |
| DisjointSets.DisjointSet.ResetStepCount | final.cpp:48-50 | the counter becomes 0; parent and rank are untouched |
| Analysis.AlphaTenths | final.cpp:53-61 | alpha(n) in tenths lies between 40 and 60, is 40 for n up to 10 and 60 above 100000 |
| Analysis.AlphaMonotone | nno.cpp:53-61 | alpha(n) never decreases as n grows |
| Analysis.AlphaValues | final.cpp:55-60 | alpha(n) is one of 4.0, 4.3, 4.6, 5.0, 5.5, 6.0 (in tenths) |
| Analysis.Chain | nno.cpp:68-70 | the state after the first i chained unions is a valid forest over n elements |
| Analysis.FindOnChain | final.cpp:73-75 | in the chained forest find(k) returns 0, changes nothing and costs 1 step for k = 0 and 2 otherwise |
| Analysis.ChainStep | final.cpp:68-70 | unionSets(i, i + 1) on the first i chained unions extends the chain and costs 3 steps for i = 0 and 4 after |
| Analysis.ChainUnions | nno.cpp:68-70 | the union loop runs max(n - 1, 0) times, ends with every element under 0 and adds 4(n - 1) - 1 steps for n >= 2 |
| Analysis.FindAll | nno.cpp:73-75 | the find loop runs n times, changes no pointer and adds 2n - 1 steps for n >= 1 |
| Analysis.AnalyzeDisjointSet | final.cpp:63-77 | observedSteps is 0 for n = 0, 1 for n = 1 and 6(n - 1) for n >= 2; loops run max(n - 1, 0) and n times; afterwards every element's parent is 0 |
| Menu.UnionCommand | final.cpp:126-131 | unions only when both elements are in [0, n); otherwise forest and counter are unchanged |
| Menu.FindCommand | final.cpp:137-142 | an in-range element yields its representative with find's effects; otherwise no result and no change |
| Menu.ConnectedCommand | userchoice.cpp:101-109 | in range: whether the two elements had the same representative, with both finds' compression and steps; otherwise no result and no change |

## Left out

- Console I/O: the menus and read loops, `std::cin`/`std::cout`, and the
  `std::setw` tables. Only the menus' range checks before each call are kept,
  in `Menu`.
- The floating-point part of `analyzeDisjointSet`: `expectedSteps = n * alpha_n`
  and the printed ratio. Alpha is modelled as integer tenths (`AlphaTenths`).
- A negative n passed to the constructor or to `analyzeDisjointSet`, which
  makes `resize` fail. The size is a `nat` here.
- Out-of-range indices passed to `find` or `unionSets`, which are undefined
  behaviour in the source. They are preconditions of `Find` and `UnionSets`.
- Overflow of the `int` step counter: `stepCount` is a `nat`.
- Menu.ConnectedCommand: C++ leaves unspecified which operand of
  `ds.find(u) == ds.find(v)` is evaluated first. The model runs `find(u)` first,
  so its step count is that of this order; the answer does not depend on it.
- The two loops of `analyzeDisjointSet` are the methods `ChainUnions` and
  `FindAll`, which `AnalyzeDisjointSet` calls in sequence. The merging branch of
  `unionSets` is the method `LinkRoots`. The computation is the source's; only
  the method boundaries are added.
