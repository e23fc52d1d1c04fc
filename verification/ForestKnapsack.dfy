/**
 The forest part of pciLowerBound (pci_allocation_bounds.go:3-87): subtree totals by one sweep
 in descending index order, and a knapsack over the roots ordered by pairs under separate roots,
 then by hops within the roots.
 */
module ForestKnapsack {
  import opened Ordering
  import opened Sums
  import opened Machine
  import opened Pairs
  import opened PCITopology
  import opened EdgeIdentity
  import opened Subtrees
  import opened TreeKnapsack

  datatype PCIPlacementCost = PCIPlacementCost(separateRoots: int, totalDistance: int, valid: bool)
  {
    predicate Less(b: PCIPlacementCost) {
      valid && (!b.valid || separateRoots < b.separateRoots ||
        (separateRoots == b.separateRoots && totalDistance < b.totalDistance))
    }
  }

  const NO_PLACEMENT := PCIPlacementCost(0, 0, false)

  // ----- subtree totals -----

  ghost function LateChild(paths: seq<Path>, g: int -> int, i: int): int -> int {
    c => if c >= i then SubtreeSum(paths, g, c) else 0
  }

  /** The sum over those subtrees of v's children whose root index is at least i. */
  ghost function LateChildren(nodes: seq<PCITreeNode>, paths: seq<Path>, g: int -> int, v: nat, i: int): int
    requires v < |nodes|
  {
    Total(nodes[v].children, LateChild(paths, g, i))
  }

  lemma {:induction false} TotalBump(xs: seq<int>, f: int -> int, g: int -> int, x: int)
    requires Ascending(xs)
    requires forall i | 0 <= i < |xs| && xs[i] != x :: f(xs[i]) == g(xs[i])
    ensures Total(xs, f) == Total(xs, g) + if x in xs then f(x) - g(x) else 0
  {
    if |xs| > 0 {
      var init, z := xs[..|xs| - 1], xs[|xs| - 1];
      assert xs == init + [z];
      TotalBump(init, f, g, x);
      assert z !in init;
      if z != x { assert f(xs[|xs| - 1]) == g(xs[|xs| - 1]); }
    }
  }

  lemma LateChildrenStep(nodes: seq<PCITreeNode>, roots: seq<nat>, paths: seq<Path>, g: int -> int, v: nat, i: nat)
    requires Forest(nodes, roots, paths) && v < |nodes| && i < |nodes|
    ensures LateChildren(nodes, paths, g, v, i) ==
            LateChildren(nodes, paths, g, v, i + 1) + if nodes[i].parent == Some(v) then SubtreeSum(paths, g, i) else 0
  {
    assert ChildrenAgree(nodes, v);
    TotalBump(nodes[v].children, LateChild(paths, g, i), LateChild(paths, g, i + 1), i);
    assert i in nodes[v].children <==> nodes[i].parent == Some(v);
  }

  lemma LateChildrenNone(nodes: seq<PCITreeNode>, roots: seq<nat>, paths: seq<Path>, g: int -> int, v: nat)
    requires Forest(nodes, roots, paths) && v < |nodes|
    ensures LateChildren(nodes, paths, g, v, |nodes|) == 0
  {
    forall k | 0 <= k < |nodes[v].children| ensures LateChild(paths, g, |nodes|)(nodes[v].children[k]) == 0 {
      ChildFacts(nodes, roots, paths, v, k);
    }
    TotalZero(nodes[v].children, LateChild(paths, g, |nodes|));
  }

  /** Children follow their parent, so once the sweep has passed v all of v's children are summed. */
  lemma LateChildrenAll(nodes: seq<PCITreeNode>, roots: seq<nat>, paths: seq<Path>, g: int -> int, v: nat, i: nat)
    requires Forest(nodes, roots, paths) && v < |nodes| && i <= v + 1
    ensures g(v) + LateChildren(nodes, paths, g, v, i) == SubtreeSum(paths, g, v)
  {
    SubtreeSumSplitsOff(paths, g, v);
    StrictSumOverChildren(nodes, roots, paths, g, v);
    forall k | 0 <= k < |nodes[v].children|
      ensures LateChild(paths, g, i)(nodes[v].children[k]) == SubtreeSum(paths, g, nodes[v].children[k]) {
      ChildFacts(nodes, roots, paths, v, k);
    }
    TotalExt(nodes[v].children, LateChild(paths, g, i), c => SubtreeSum(paths, g, c));
  }

  /** The sweep has handled the nodes from i on: each entry holds what those nodes added to it, and
      its own count if that was there from the start or has been added. */
  ghost predicate Swept(xs: seq<int>, nodes: seq<PCITreeNode>, paths: seq<Path>, g: int -> int, i: int,
                        ownFromStart: bool) {
    && |xs| == |nodes|
    && forall v | 0 <= v < |nodes| ::
      xs[v] == (if ownFromStart || v >= i then g(v) else 0) + LateChildren(nodes, paths, g, v, i)
  }

  /** Handing node i's total to its parent, after adding its own count when that is still due. */
  function Handed(xs: seq<int>, i: nat, parent: Option<nat>, due: int): seq<int>
    requires i < |xs| && (parent.Some? ==> parent.value < i)
  {
    var ys := xs[i := xs[i] + due];
    if parent.Some? then ys[parent.value := ys[parent.value] + ys[i]] else ys
  }

  lemma SweptStep(xs: seq<int>, nodes: seq<PCITreeNode>, roots: seq<nat>, paths: seq<Path>, g: int -> int, i: nat,
                  ownFromStart: bool)
    requires Forest(nodes, roots, paths) && i < |nodes| && Swept(xs, nodes, paths, g, i + 1, ownFromStart)
    ensures nodes[i].parent.Some? ==> nodes[i].parent.value < i
    ensures Swept(Handed(xs, i, nodes[i].parent, if ownFromStart then 0 else g(i)), nodes, paths, g, i, ownFromStart)
  {
    assert NodeAgrees(nodes, paths, i);
    LateChildrenAll(nodes, roots, paths, g, i, i + 1);
    var ys := Handed(xs, i, nodes[i].parent, if ownFromStart then 0 else g(i));
    forall v | 0 <= v < |nodes|
      ensures ys[v] == (if ownFromStart || v >= i then g(v) else 0) + LateChildren(nodes, paths, g, v, i)
    {
      LateChildrenStep(nodes, roots, paths, g, v, i);
    }
  }

  ghost predicate ParentsFirst(nodes: seq<PCITreeNode>) {
    forall i | 0 <= i < |nodes| && nodes[i].parent.Some? :: nodes[i].parent.value < i
  }

  /** The sweep over the nodes below n, last one first. */
  ghost function Sweep(xs: seq<int>, nodes: seq<PCITreeNode>, due: seq<int>, n: nat): (r: seq<int>)
    requires n <= |nodes| == |xs| == |due| && ParentsFirst(nodes)
    ensures |r| == |xs|
    decreases n
  {
    if n == 0 then xs else Sweep(Handed(xs, n - 1, nodes[n - 1].parent, due[n - 1]), nodes, due, n - 1)
  }

  lemma {:induction false} SweepIsSwept(xs: seq<int>, nodes: seq<PCITreeNode>, roots: seq<nat>, paths: seq<Path>,
                                        g: int -> int, due: seq<int>, n: nat, ownFromStart: bool)
    requires Forest(nodes, roots, paths) && n <= |nodes| == |xs| == |due| && ParentsFirst(nodes)
    requires forall i | 0 <= i < |due| :: due[i] == if ownFromStart then 0 else g(i)
    requires Swept(xs, nodes, paths, g, n, ownFromStart)
    ensures Swept(Sweep(xs, nodes, due, n), nodes, paths, g, 0, ownFromStart)
    decreases n
  {
    hide Swept, Forest;
    if n > 0 {
      SweptStep(xs, nodes, roots, paths, g, n - 1, ownFromStart);
      SweepIsSwept(Handed(xs, n - 1, nodes[n - 1].parent, due[n - 1]), nodes, roots, paths, g, due, n - 1,
                   ownFromStart);
    }
  }

  /** A full sweep gives every node the sum over its subtree, because parents come first. */
  lemma SweepGivesSubtreeSums(xs: seq<int>, nodes: seq<PCITreeNode>, roots: seq<nat>, paths: seq<Path>, g: int -> int,
                              due: seq<int>, ownFromStart: bool)
    requires Forest(nodes, roots, paths) && |nodes| == |xs| == |due| && ParentsFirst(nodes)
    requires forall i | 0 <= i < |due| :: due[i] == if ownFromStart then 0 else g(i)
    requires forall i | 0 <= i < |xs| :: xs[i] == if ownFromStart then g(i) else 0
    ensures forall v | 0 <= v < |nodes| :: Sweep(xs, nodes, due, |nodes|)[v] == SubtreeSum(paths, g, v)
  {
    hide Forest, Sweep, SubtreeSum, LateChildren;
    forall v | 0 <= v < |nodes| ensures LateChildren(nodes, paths, g, v, |nodes|) == 0 {
      LateChildrenNone(nodes, roots, paths, g, v);
    }
    SweepIsSwept(xs, nodes, roots, paths, g, due, |nodes|, ownFromStart);
    forall v | 0 <= v < |nodes| ensures Sweep(xs, nodes, due, |nodes|)[v] == SubtreeSum(paths, g, v) {
      LateChildrenAll(nodes, roots, paths, g, v, 0);
    }
  }

  ghost function Zeros(n: nat): (r: seq<int>)
    ensures |r| == n && forall i | 0 <= i < n :: r[i] == 0
  {
    seq(n, i => 0)
  }

  /** The loop body: node i's endpoints and totals go to its parent. */
  method SweepNode(f: array<int>, c: array<int>, i: nat, parent: Option<nat>, endpoints: int)
    requires f != c && f.Length == c.Length && i < f.Length && (parent.Some? ==> parent.value < i)
    modifies f, c
    ensures f[..] == Handed(old(f[..]), i, parent, 0)
    ensures c[..] == Handed(old(c[..]), i, parent, endpoints)
  {
    c[i] := c[i] + endpoints;
    if parent.Some? {
      f[parent.value] := f[parent.value] + f[i];
      c[parent.value] := c[parent.value] + c[i];
    }
  }

  lemma SweepStep(xs: seq<int>, nodes: seq<PCITreeNode>, due: seq<int>, i: nat)
    requires i < |nodes| == |xs| == |due| && ParentsFirst(nodes)
    ensures nodes[i].parent.Some? ==> nodes[i].parent.value < i
    ensures Sweep(xs, nodes, due, i + 1) == Sweep(Handed(xs, i, nodes[i].parent, due[i]), nodes, due, i)
  {}

  lemma SweepDone(xs: seq<int>, nodes: seq<PCITreeNode>, due: seq<int>)
    requires |nodes| == |xs| == |due| && ParentsFirst(nodes)
    ensures Sweep(xs, nodes, due, 0) == xs
  {}

  /** One pass from the last node to the first, adding each node's totals to its parent's. */
  method SweepToParents(nodes: seq<PCITreeNode>, forced: seq<int>, free: seq<int>)
    returns (forcedSubtree: seq<int>, capacity: seq<int>)
    requires |forced| == |free| == |nodes| && ParentsFirst(nodes)
    ensures forcedSubtree == Sweep(forced, nodes, Zeros(|nodes|), |nodes|)
    ensures capacity == Sweep(Zeros(|nodes|), nodes, AddSeqs(forced, free), |nodes|)
  {
    hide Sweep, Handed, ParentsFirst;
    var n := |nodes|;
    var f, c := new int[n](i requires 0 <= i < n => forced[i]), new int[n](_ => 0);
    ghost var zeros, both := Zeros(n), AddSeqs(forced, free);
    ghost var fs, cs := forced, zeros;
    assert f[..] == fs && c[..] == cs;
    var i := n;
    while i > 0
      invariant 0 <= i <= n
      invariant f[..] == fs && Sweep(fs, nodes, zeros, i) == Sweep(forced, nodes, zeros, n)
      invariant c[..] == cs && Sweep(cs, nodes, both, i) == Sweep(zeros, nodes, both, n)
    {
      i := i - 1;
      SweepStep(fs, nodes, zeros, i);
      SweepStep(cs, nodes, both, i);
      fs, cs := Handed(fs, i, nodes[i].parent, zeros[i]), Handed(cs, i, nodes[i].parent, both[i]);
      SweepNode(f, c, i, nodes[i].parent, forced[i] + free[i]);
    }
    SweepDone(fs, nodes, zeros);
    SweepDone(cs, nodes, both);
    forcedSubtree, capacity := f[..], c[..];
  }

  method SubtreeTotals(nodes: seq<PCITreeNode>, forced: seq<int>, free: seq<int>, ghost roots: seq<nat>,
                       ghost paths: seq<Path>)
    returns (forcedSubtree: seq<int>, capacity: seq<int>)
    requires Forest(nodes, roots, paths) && Counts(forced, |nodes|) && Counts(free, |nodes|)
    ensures Tables(nodes, roots, paths, forced, free, forcedSubtree, capacity)
  {
    forall i | 0 <= i < |nodes| && nodes[i].parent.Some?
      ensures nodes[i].parent.value < i { assert NodeAgrees(nodes, paths, i); }
    forcedSubtree, capacity := SweepToParents(nodes, forced, free);
    SweepGivesSubtreeSums(forced, nodes, roots, paths, Amount(forced), Zeros(|nodes|), true);
    SweepGivesSubtreeSums(Zeros(|nodes|), nodes, roots, paths, Amount(AddSeqs(forced, free)), AddSeqs(forced, free),
                          false);
  }

  // ----- what the knapsack over the roots computes -----

  /** Endpoints taken under the first r roots. */
  ghost function RootsTaken(paths: seq<Path>, roots: seq<nat>, s: Selection, r: nat): int
    requires r <= |roots|
  {
    if r == 0 then 0 else RootsTaken(paths, roots, s, r - 1) + Taken(paths, s, roots[r - 1])
  }

  /** Pairs of taken endpoints under two different roots among the first r. */
  ghost function RootsCross(paths: seq<Path>, roots: seq<nat>, s: Selection, r: nat): int
    requires r <= |roots|
  {
    if r == 0 then 0
    else RootsCross(paths, roots, s, r - 1) + CrossTerm(paths, roots, s, r - 1)
  }

  ghost function CrossTerm(paths: seq<Path>, roots: seq<nat>, s: Selection, j: nat): int
    requires j < |roots|
  {
    RootsTaken(paths, roots, s, j) * Taken(paths, s, roots[j])
  }

  /** Hops between the taken endpoints within each of the first r roots. */
  ghost function RootsInner(paths: seq<Path>, roots: seq<nat>, s: Selection, r: nat): int
    requires r <= |roots|
  {
    if r == 0 then 0
    else RootsInner(paths, roots, s, r - 1) + InnerCost(paths, s, roots[r - 1], Taken(paths, s, roots[r - 1]))
  }

  ghost predicate AtMostPair(c: PCIPlacementCost, sep: int, total: int) {
    c.valid && (c.separateRoots < sep || (c.separateRoots == sep && c.totalDistance <= total))
  }

  ghost predicate Completes(paths: seq<Path>, roots: seq<nat>, s: Selection, forced: seq<int>, free: seq<int>,
                            known: int) {
    Allowed(s, forced, free) && RootsTaken(paths, roots, s, |roots|) == known
  }

  ghost predicate PlacementReached(c: PCIPlacementCost, t: int, paths: seq<Path>, roots: seq<nat>, r: nat,
                                   forced: seq<int>, free: seq<int>)
    requires r <= |roots|
  {
    exists s :: Allowed(s, forced, free) && RootsTaken(paths, roots, s, r) == t &&
      RootsCross(paths, roots, s, r) == c.separateRoots && RootsInner(paths, roots, s, r) == c.totalDistance
  }

  /** The cell of what s takes under the first r roots is at most what s costs there. */
  ghost predicate CellBounds(cells: seq<PCIPlacementCost>, paths: seq<Path>, roots: seq<nat>, s: Selection, r: nat,
                             known: int)
    requires r <= |roots| && |cells| == known + 1
  {
    && 0 <= RootsTaken(paths, roots, s, r) <= known
    && AtMostPair(cells[RootsTaken(paths, roots, s, r)], RootsCross(paths, roots, s, r), RootsInner(paths, roots, s, r))
  }

  /** Every selection that can still be completed is bounded by its cell, and every valid cell is
      the cost of some selection. */
  ghost predicate ForestCells(cells: seq<PCIPlacementCost>, paths: seq<Path>, roots: seq<nat>, r: nat, forced: seq<int>,
                              free: seq<int>, known: int)
    requires r <= |roots|
  {
    && |cells| == known + 1
    && (forall s | Completes(paths, roots, s, forced, free, known) ::
          CellBounds(cells, paths, roots, s, r, known))
    && (forall t | 0 <= t <= known && cells[t].valid :: PlacementReached(cells[t], t, paths, roots, r, forced, free))
  }

  /** The result for a whole forest: the least (cross-root pairs, hops) over the selections of
      exactly known endpoints, attained by one of them. */
  ghost predicate BestPlacement(c: PCIPlacementCost, paths: seq<Path>, roots: seq<nat>, forced: seq<int>,
                                free: seq<int>, known: int) {
    && (forall s | Completes(paths, roots, s, forced, free, known) ::
          AtMostPair(c, RootsCross(paths, roots, s, |roots|), RootsInner(paths, roots, s, |roots|)))
    && (c.valid ==> PlacementReached(c, known, paths, roots, |roots|, forced, free))
  }

  // ----- the size at which machine integers and the sentinel suffice -----

  // ----- joining one root -----

  ghost predicate RootUsable(cells: seq<PCIPlacementCost>, rootCosts: seq<int>, b: int, c: int, known: int) {
    0 <= b < |cells| && 0 <= c < |rootCosts| && b + c <= known && cells[b].valid && rootCosts[c] != IMPOSSIBLE_PCI_COST
  }

  ghost predicate RootCell(next: seq<PCIPlacementCost>, cells: seq<PCIPlacementCost>, rootCosts: seq<int>, t: int,
                           known: int)
    requires 0 <= t < |next|
  {
    next[t].valid ==> exists b, c :: RootFrom(next[t], cells, rootCosts, b, c, t, known)
  }

  ghost predicate RootFrom(cell: PCIPlacementCost, cells: seq<PCIPlacementCost>, rootCosts: seq<int>, b: int, c: int,
                           t: int, known: int) {
    && RootUsable(cells, rootCosts, b, c, known) && b + c == t
    && cell.separateRoots == cells[b].separateRoots + b * c
    && cell.totalDistance == cells[b].totalDistance + rootCosts[c]
  }

  ghost predicate RootCovered(next: seq<PCIPlacementCost>, cells: seq<PCIPlacementCost>, rootCosts: seq<int>, b: int,
                              c: int)
    requires 0 <= b < |cells| && 0 <= c < |rootCosts| && b + c < |next|
  {
    AtMostPair(next[b + c], cells[b].separateRoots + b * c, cells[b].totalDistance + rootCosts[c])
  }

  ghost predicate RootJoined(next: seq<PCIPlacementCost>, cells: seq<PCIPlacementCost>, rootCosts: seq<int>,
                             known: int) {
    && |next| == known + 1
    && (forall t | 0 <= t <= known :: RootCell(next, cells, rootCosts, t, known))
    && (forall b, c | RootUsable(cells, rootCosts, b, c, known) :: RootCovered(next, cells, rootCosts, b, c))
  }

  /** The sums formed for every usable combination stay in the machine range. */
  ghost predicate RootSumsFit(cells: seq<PCIPlacementCost>, rootCosts: seq<int>, known: int) {
    forall b, c | RootUsable(cells, rootCosts, b, c, known) :: CandidateFits(cells[b], b, c, rootCosts[c])
  }

  ghost predicate CandidateFits(previous: PCIPlacementCost, before: int, count: int, cost: int) {
    && 0 <= before * count <= previous.separateRoots + before * count <= MAX_INT
    && 0 <= previous.totalDistance + cost <= MAX_INT
  }

  ghost function Constant(bound: int): int -> int { u => bound }

  /** A root's inner cost is at most the largest edge term for each node of its tree. */
  lemma InnerBelowTree(paths: seq<Path>, s: Selection, v: int, k: int, known: int)
    requires 0 <= k <= known
    ensures InnerCost(paths, s, v, k) <= SubtreeSum(paths, Constant(known * known / 4), v)
  {
    var bound := known * known / 4;
    SquareNonNegative(known);
    forall u | 0 <= u < |paths|
      ensures StrictlyMasked(paths, EdgeCost(paths, s, k), v)(u) <= Masked(paths, Constant(bound), v)(u)
    {
      EdgeTermBound(Taken(paths, s, u), k);
      SquareMonotone(k, known);
    }
    SumAtMost(|paths|, StrictlyMasked(paths, EdgeCost(paths, s, k), v), Masked(paths, Constant(bound), v));
  }

  lemma {:induction false} RootsInnerBelowTrees(paths: seq<Path>, roots: seq<nat>, s: Selection, r: nat, known: int)
    requires r <= |roots| && Counts(s, |paths|) && RootsTaken(paths, roots, s, r) <= known
    ensures 0 <= RootsTaken(paths, roots, s, r) && 0 <= RootsInner(paths, roots, s, r)
    ensures RootsInner(paths, roots, s, r) <=
            Total(roots[..r], v => SubtreeSum(paths, Constant(known * known / 4), v))
  {
    hide Counts, Taken, InnerCost, SubtreeSum;
    if r > 0 {
      var root := roots[r - 1];
      TakenNonNegative(paths, s, root);
      RootsInnerBelowTrees(paths, roots, s, r - 1, known);
      var k := Taken(paths, s, root);
      CostsNonNegative(paths, s, root, k);
      InnerBelowTree(paths, s, root, k, known);
      assert roots[..r][..r - 1] == roots[..r - 1];
    }
  }

  lemma TakenNonNegative(paths: seq<Path>, s: Selection, v: int)
    requires Counts(s, |paths|)
    ensures 0 <= Taken(paths, s, v)
  {
    SumNonNegative(|paths|, Masked(paths, Amount(s), v));
  }

  lemma SubtreesNonNegative(paths: seq<Path>, bound: int, v: int)
    requires 0 <= bound
    ensures 0 <= SubtreeSum(paths, Constant(bound), v)
  {
    SumNonNegative(|paths|, Masked(paths, Constant(bound), v));
  }

  lemma {:induction false} TreesWithinForest(paths: seq<Path>, roots: seq<nat>, r: nat, bound: int)
    requires r <= |roots| && 0 <= bound
    ensures Total(roots[..r], v => SubtreeSum(paths, Constant(bound), v)) <=
            Total(roots, v => SubtreeSum(paths, Constant(bound), v))
    decreases |roots| - r
  {
    hide SubtreeSum;
    if r == |roots| {
      assert roots[..r] == roots;
    } else {
      SubtreesNonNegative(paths, bound, roots[r]);
      assert roots[..r + 1][..r] == roots[..r];
      TreesWithinForest(paths, roots, r + 1, bound);
    }
  }

  /** The hops of the endpoints taken under the first roots: at most nodes * known^2 / 4. */
  lemma RootsInnerBound(nodes: seq<PCITreeNode>, roots: seq<nat>, paths: seq<Path>, s: Selection, r: nat, known: int)
    requires Forest(nodes, roots, paths) && r <= |roots| && Counts(s, |paths|) &&
             RootsTaken(paths, roots, s, r) <= known
    ensures 0 <= RootsInner(paths, roots, s, r) <= |nodes| * (known * known / 4)
  {
    hide RootsTaken, RootsInner, SubtreeSum;
    var bound := known * known / 4;
    SquareNonNegative(known);
    RootsInnerBelowTrees(paths, roots, s, r, known);
    TreesWithinForest(paths, roots, r, bound);
    SumOverRoots(nodes, roots, paths, Constant(bound));
    TotalExt(roots, v => SubtreeSum(paths, Constant(bound), v), r => SubtreeSum(paths, Constant(bound), r));
    SumBounded(|paths|, Constant(bound), bound);
  }

  /** Pairs under separate roots: at most half the square of the endpoints. */
  lemma {:induction false} RootsCrossBound(paths: seq<Path>, roots: seq<nat>, s: Selection, r: nat)
    requires r <= |roots| && Counts(s, |paths|)
    ensures 0 <= RootsTaken(paths, roots, s, r)
    ensures 0 <= 2 * RootsCross(paths, roots, s, r) <= RootsTaken(paths, roots, s, r) * RootsTaken(paths, roots, s, r)
  {
    hide Counts, Taken;
    if r > 0 {
      RootsCrossBound(paths, roots, s, r - 1);
      TakenNonNegative(paths, s, roots[r - 1]);
      SquareGrows(RootsTaken(paths, roots, s, r - 1), Taken(paths, s, roots[r - 1]));
    }
  }

  lemma RootSumsInRange(nodes: seq<PCITreeNode>, roots: seq<nat>, paths: seq<Path>, r: nat, known: int,
                        forced: seq<int>, free: seq<int>, forcedSubtree: seq<int>, capacity: seq<int>,
                        cells: seq<PCIPlacementCost>, rootCosts: seq<int>, least: int, most: int)
    requires Tables(nodes, roots, paths, forced, free, forcedSubtree, capacity)
    requires r < |roots| && roots[r] < |nodes| && FitsMachine(|nodes|, known)
    requires ForestCells(cells, paths, roots, r, forced, free, known)
    requires RootCosts(rootCosts, paths, roots[r], forced, free, least, most)
    ensures RootSumsFit(cells, rootCosts, known)
  {
    hide RootsTaken, RootsCross, RootsInner, Taken, InnerCost, FitsMachine, CandidateFits;
    forall b, c | RootUsable(cells, rootCosts, b, c, known) ensures CandidateFits(cells[b], b, c, rootCosts[c]) {
      assert PlacementReached(cells[b], b, paths, roots, r, forced, free);
      assert Reached(rootCosts, c, paths, roots[r], c, forced, free);
      CandidateInRange(nodes, roots, paths, r, known, forced, free, cells[b], rootCosts, b, c);
    }
  }

  lemma CandidateInRange(nodes: seq<PCITreeNode>, roots: seq<nat>, paths: seq<Path>, r: nat, known: int,
                         forced: seq<int>, free: seq<int>, previous: PCIPlacementCost, rootCosts: seq<int>, b: int,
                         c: int)
    requires Forest(nodes, roots, paths) && r < |roots| && Counts(forced, |nodes|) && Counts(free, |nodes|)
    requires FitsMachine(|nodes|, known) && 0 <= b && 0 <= c < |rootCosts| && b + c <= known
    requires PlacementReached(previous, b, paths, roots, r, forced, free)
    requires Reached(rootCosts, c, paths, roots[r], c, forced, free)
    ensures CandidateFits(previous, b, c, rootCosts[c])
  {
    hide RootsTaken, RootsCross, RootsInner, Taken, InnerCost, FitsMachine;
    var s1 :| Allowed(s1, forced, free) && RootsTaken(paths, roots, s1, r) == b &&
      RootsCross(paths, roots, s1, r) == previous.separateRoots &&
        RootsInner(paths, roots, s1, r) == previous.totalDistance;
    var s2 :| Allowed(s2, forced, free) && Taken(paths, s2, roots[r]) == c &&
      InnerCost(paths, s2, roots[r], c) == rootCosts[c];
    AllowedCounts(s1, forced, free);
    AllowedCounts(s2, forced, free);
    FitsFactors(|nodes|, known);
    RootsInnerBound(nodes, roots, paths, s1, r, known);
    CostBelowSentinel(paths, s2, roots[r], c, known);
    CostsNonNegative(paths, s2, roots[r], c);
    RootsCrossBound(paths, roots, s1, r);
    PairsWithinSquare(previous.separateRoots, b, c, known);
  }

  /** Overwriting a cell only with a smaller cost keeps every earlier bound. */
  lemma ImprovedCell(was: seq<PCIPlacementCost>, next: seq<PCIPlacementCost>, t: int, c: PCIPlacementCost,
                     cells: seq<PCIPlacementCost>, rootCosts: seq<int>, b: int, n: int, known: int)
    requires 0 <= t < |was| && next == was[t := c] && c.Less(was[t])
    requires RootUsable(cells, rootCosts, b, n, known) && |was| == known + 1 && RootCovered(was, cells, rootCosts, b, n)
    ensures RootCovered(next, cells, rootCosts, b, n)
  {}

  method JoinRoot(forest: array<PCIPlacementCost>, rootCosts: seq<int>, knownCount: nat)
    returns (next: array<PCIPlacementCost>)
    requires forest.Length == knownCount + 1
    requires RootSumsFit(forest[..], rootCosts, knownCount)
    ensures fresh(next) && next.Length == knownCount + 1
    ensures RootJoined(next[..], forest[..], rootCosts, knownCount)
  {
    next := new PCIPlacementCost[knownCount + 1](_ => NO_PLACEMENT);
    ghost var cells := forest[..];
    for before := 0 to knownCount + 1
      invariant forest[..] == cells
      invariant forall t | 0 <= t <= knownCount :: RootCell(next[..], cells, rootCosts, t, knownCount)
      invariant forall b, c | RootUsable(cells, rootCosts, b, c, knownCount) && b < before ::
                RootCovered(next[..], cells, rootCosts, b, c)
    {
      var previous := forest[before];
      if previous.valid {
        for count := 0 to |rootCosts|
          invariant forest[..] == cells
          invariant forall t | 0 <= t <= knownCount :: RootCell(next[..], cells, rootCosts, t, knownCount)
          invariant forall b, c | RootUsable(cells, rootCosts, b, c, knownCount) && b < before ::
                    RootCovered(next[..], cells, rootCosts, b, c)
          invariant forall c | RootUsable(cells, rootCosts, before, c, knownCount) && c < count ::
                    RootCovered(next[..], cells, rootCosts, before, c)
        {
          var cost := rootCosts[count];
          if before + count <= knownCount && cost != IMPOSSIBLE_PCI_COST {
            assert RootUsable(cells, rootCosts, before, count, knownCount);
            assert CandidateFits(previous, before, count, cost);
            var candidate := PCIPlacementCost(previous.separateRoots + before * count, previous.totalDistance + cost,
                                              true);
            ghost var was := next[..];
            ghost var t0 := before + count;
            if candidate.Less(next[before + count]) {
              next[before + count] := candidate;
              assert next[..] == was[t0 := candidate];
              forall b, c | RootUsable(cells, rootCosts, b, c, knownCount) && RootCovered(was, cells, rootCosts, b, c)
                ensures RootCovered(next[..], cells, rootCosts, b, c)
              {
                ImprovedCell(was, next[..], t0, candidate, cells, rootCosts, b, c, knownCount);
              }
            }
            assert RootFrom(candidate, cells, rootCosts, before, count, t0, knownCount);
            forall t | 0 <= t <= knownCount ensures RootCell(next[..], cells, rootCosts, t, knownCount) {
              assert RootCell(was, cells, rootCosts, t, knownCount);
            }
          }
        }
      }
    }
  }

  /** rootCosts[c] is the exact cost of taking c endpoints under root v, for least <= c <= most. */
  ghost predicate RootCosts(rootCosts: seq<int>, paths: seq<Path>, v: int, forced: seq<int>, free: seq<int>, least: int,
                            most: int) {
    && (forall s | Allowed(s, forced, free) && 0 <= Taken(paths, s, v) < |rootCosts| &&
        least <= Taken(paths, s, v) <= most ::
          rootCosts[Taken(paths, s, v)] <= InnerCost(paths, s, v, Taken(paths, s, v)))
    && (forall c | 0 <= c < |rootCosts| && rootCosts[c] != IMPOSSIBLE_PCI_COST ::
        Reached(rootCosts, c, paths, v, c, forced, free))
  }

  lemma CombineRoots(nodes: seq<PCITreeNode>, roots: seq<nat>, paths: seq<Path>, s: Selection, t: Selection, j: nat,
                     r: nat)
    requires Forest(nodes, roots, paths) && r <= j < |roots| && |s| == |t| == |paths|
    ensures var st := Combine(paths, s, t, roots[j]);
            RootsTaken(paths, roots, st, r) == RootsTaken(paths, roots, s, r) &&
            RootsCross(paths, roots, st, r) == RootsCross(paths, roots, s, r) &&
            RootsInner(paths, roots, st, r) == RootsInner(paths, roots, s, r)
  {
    if r > 0 {
      var st := Combine(paths, s, t, roots[j]);
      CombineRoots(nodes, roots, paths, s, t, j, r - 1);
      var k := Taken(paths, s, roots[r - 1]);
      forall u | 0 <= u < |paths| && Under(paths, roots[r - 1], u) ensures Amount(st)(u) == Amount(s)(u) {
        var n := RootNumber(nodes, roots, paths, u);
        assert UnderRootNumber(paths, roots, r - 1, u);
        assert !UnderRootNumber(paths, roots, j, u);
      }
      Locality(paths, st, s, roots[r - 1], k);
    }
  }

  lemma ForestAttained(nodes: seq<PCITreeNode>, roots: seq<nat>, paths: seq<Path>, r: nat, forced: seq<int>,
                       free: seq<int>, known: int, cells: seq<PCIPlacementCost>, rootCosts: seq<int>,
                       next: seq<PCIPlacementCost>, t: int)
    requires Forest(nodes, roots, paths) && r < |roots| && |forced| == |free| == |nodes|
    requires ForestCells(cells, paths, roots, r, forced, free, known)
    requires forall c | 0 <= c < |rootCosts| && rootCosts[c] != IMPOSSIBLE_PCI_COST ::
             Reached(rootCosts, c, paths, roots[r], c, forced, free)
    requires RootJoined(next, cells, rootCosts, known) && 0 <= t <= known && next[t].valid
    ensures PlacementReached(next[t], t, paths, roots, r + 1, forced, free)
  {
    assert RootCell(next, cells, rootCosts, t, known);
    var b, c :| RootFrom(next[t], cells, rootCosts, b, c, t, known);
    assert PlacementReached(cells[b], b, paths, roots, r, forced, free);
    assert Reached(rootCosts, c, paths, roots[r], c, forced, free);
    RootsReachedTogether(nodes, roots, paths, r, forced, free, cells[b], rootCosts, next[t], b, c);
  }

  lemma RootsReachedTogether(nodes: seq<PCITreeNode>, roots: seq<nat>, paths: seq<Path>, r: nat, forced: seq<int>,
                             free: seq<int>, cell: PCIPlacementCost, rootCosts: seq<int>, next: PCIPlacementCost,
                             b: int, c: int)
    requires Forest(nodes, roots, paths) && r < |roots| && |forced| == |free| == |nodes|
    requires PlacementReached(cell, b, paths, roots, r, forced, free)
    requires 0 <= c < |rootCosts| && Reached(rootCosts, c, paths, roots[r], c, forced, free)
    requires next.separateRoots == cell.separateRoots + b * c && next.totalDistance == cell.totalDistance + rootCosts[c]
    ensures PlacementReached(next, b + c, paths, roots, r + 1, forced, free)
  {
    hide Allowed, RootsTaken, RootsCross, RootsInner, Taken, InnerCost, Forest;
    var s1 :| Allowed(s1, forced, free) && RootsTaken(paths, roots, s1, r) == b &&
      RootsCross(paths, roots, s1, r) == cell.separateRoots && RootsInner(paths, roots, s1, r) == cell.totalDistance;
    var s2 :| Allowed(s2, forced, free) && Taken(paths, s2, roots[r]) == c &&
      InnerCost(paths, s2, roots[r], c) == rootCosts[c];
    var s := CombinedPlacement(nodes, roots, paths, s1, s2, r, forced, free, b, c);
    var r' := r + 1;
    assert RootsTaken(paths, roots, s, r') == b + c;
    assert RootsCross(paths, roots, s, r') == next.separateRoots;
    assert RootsInner(paths, roots, s, r') == next.totalDistance;
  }

  lemma CombinedPlacement(nodes: seq<PCITreeNode>, roots: seq<nat>, paths: seq<Path>, s1: Selection, s2: Selection,
                          r: nat, forced: seq<int>, free: seq<int>, b: int, c: int) returns (s: Selection)
    requires Forest(nodes, roots, paths) && r < |roots| && |forced| == |nodes|
    requires Allowed(s1, forced, free) && Allowed(s2, forced, free)
    requires RootsTaken(paths, roots, s1, r) == b && Taken(paths, s2, roots[r]) == c
    ensures Allowed(s, forced, free)
    ensures RootsTaken(paths, roots, s, r + 1) == b + c
    ensures RootsCross(paths, roots, s, r + 1) == RootsCross(paths, roots, s1, r) + b * c
    ensures RootsInner(paths, roots, s, r + 1) == RootsInner(paths, roots, s1, r) + InnerCost(paths, s2, roots[r], c)
  {
    assert |s1| == |s2| == |paths|;
    s := Combine(paths, s1, s2, roots[r]);
    assert Allowed(s, forced, free);
    hide InnerCost, Taken, Allowed, RootsTaken, RootsCross, RootsInner;
    NextRootSums(paths, roots, s, r);
    CombineRoots(nodes, roots, paths, s1, s2, r, r);
    Locality(paths, s, s2, roots[r], c);
  }

  lemma RootsTakenBetween(nodes: seq<PCITreeNode>, roots: seq<nat>, paths: seq<Path>, s: Selection, r: nat, q: nat,
                          forced: seq<int>, free: seq<int>, forcedSubtree: seq<int>, capacity: seq<int>)
    requires Tables(nodes, roots, paths, forced, free, forcedSubtree, capacity)
    requires Allowed(s, forced, free) && r <= q <= |roots|
    ensures 0 <= RootsTaken(paths, roots, s, r) <= RootsTaken(paths, roots, s, q)
    decreases q
  {
    if q > r {
      RootsTakenBetween(nodes, roots, paths, s, r, q - 1, forced, free, forcedSubtree, capacity);
      assert roots[q - 1] in roots;
      TakenWithinCapacity(nodes, roots, paths, s, roots[q - 1], forced, free, forcedSubtree, capacity);
    } else if r > 0 {
      RootsTakenBetween(nodes, roots, paths, s, r - 1, q - 1, forced, free, forcedSubtree, capacity);
      assert roots[q - 1] in roots;
      TakenWithinCapacity(nodes, roots, paths, s, roots[q - 1], forced, free, forcedSubtree, capacity);
    }
  }

  /** Every completion takes between least and most endpoints under root r. */
  ghost predicate TakesBetween(paths: seq<Path>, roots: seq<nat>, r: nat, forced: seq<int>, free: seq<int>, known: int,
                               least: int, most: int)
    requires r < |roots|
  {
    forall s | Completes(paths, roots, s, forced, free, known) :: least <= Taken(paths, s, roots[r]) <= most
  }

  lemma NextRoot(nodes: seq<PCITreeNode>, roots: seq<nat>, paths: seq<Path>, r: nat, known: int,
                 forced: seq<int>, free: seq<int>, forcedSubtree: seq<int>, capacity: seq<int>,
                 cells: seq<PCIPlacementCost>, rootCosts: seq<int>, next: seq<PCIPlacementCost>, least: int, most: int)
    requires Tables(nodes, roots, paths, forced, free, forcedSubtree, capacity)
    requires r < |roots| && roots[r] < |nodes| && FitsMachine(|nodes|, known)
    requires ForestCells(cells, paths, roots, r, forced, free, known)
    requires RootCosts(rootCosts, paths, roots[r], forced, free, least, most)
    requires |rootCosts| == Min(capacity[roots[r]], known) + 1
    requires TakesBetween(paths, roots, r, forced, free, known, least, most)
    requires RootJoined(next, cells, rootCosts, known)
    ensures ForestCells(next, paths, roots, r + 1, forced, free, known)
  {
    hide RootsTaken, RootsCross, RootsInner, Taken, InnerCost, FitsMachine, Forest;
    forall s | Completes(paths, roots, s, forced, free, known)
      ensures CellBounds(next, paths, roots, s, r + 1, known)
    {
      NextRootBounds(nodes, roots, paths, r, known, forced, free, forcedSubtree, capacity, cells, rootCosts, next,
                     least, most, s);
    }
    forall t | 0 <= t <= known && next[t].valid
      ensures PlacementReached(next[t], t, paths, roots, r + 1, forced, free) {
      ForestAttained(nodes, roots, paths, r, forced, free, known, cells, rootCosts, next, t);
    }
  }

  lemma NextRootBounds(nodes: seq<PCITreeNode>, roots: seq<nat>, paths: seq<Path>, r: nat, known: int, forced: seq<int>,
                       free: seq<int>, forcedSubtree: seq<int>, capacity: seq<int>, cells: seq<PCIPlacementCost>,
                       rootCosts: seq<int>, next: seq<PCIPlacementCost>, least: int, most: int, s: Selection)
    requires Tables(nodes, roots, paths, forced, free, forcedSubtree, capacity)
    requires r < |roots| && roots[r] < |nodes| && FitsMachine(|nodes|, known)
    requires |cells| == known + 1 && CellBounds(cells, paths, roots, s, r, known)
    requires RootCosts(rootCosts, paths, roots[r], forced, free, least, most)
    requires |rootCosts| == Min(capacity[roots[r]], known) + 1
    requires Completes(paths, roots, s, forced, free, known) && least <= Taken(paths, s, roots[r]) <= most
    requires RootJoined(next, cells, rootCosts, known)
    ensures CellBounds(next, paths, roots, s, r + 1, known)
  {
    assert |paths| == |nodes|;
    hide Taken, InnerCost, Forest, FitsMachine, RootsCross, RootsInner, CrossTerm, RootJoined;
    var b, c := RootsTaken(paths, roots, s, r), Taken(paths, s, roots[r]);
    RootsTakenBetween(nodes, roots, paths, s, r, r + 1, forced, free, forcedSubtree, capacity);
    RootsTakenBetween(nodes, roots, paths, s, r + 1, |roots|, forced, free, forcedSubtree, capacity);
    TakenWithinCapacity(nodes, roots, paths, s, roots[r], forced, free, forcedSubtree, capacity);
    CostBelowSentinel(paths, s, roots[r], c, known);
    assert RootUsable(cells, rootCosts, b, c, known);
    JoinedBounds(next, cells, rootCosts, known, b, c, RootsCross(paths, roots, s, r), RootsInner(paths, roots, s, r),
                 InnerCost(paths, s, roots[r], c));
    NextRootSums(paths, roots, s, r);
  }

  lemma NextRootSums(paths: seq<Path>, roots: seq<nat>, s: Selection, r: nat)
    requires r < |roots|
    ensures RootsTaken(paths, roots, s, r + 1) == RootsTaken(paths, roots, s, r) + Taken(paths, s, roots[r])
    ensures RootsCross(paths, roots, s, r + 1) == RootsCross(paths, roots, s, r) +
            RootsTaken(paths, roots, s, r) * Taken(paths, s, roots[r])
    ensures RootsInner(paths, roots, s, r + 1) == RootsInner(paths, roots, s, r) +
            InnerCost(paths, s, roots[r], Taken(paths, s, roots[r]))
  {}

  lemma JoinedBounds(next: seq<PCIPlacementCost>, cells: seq<PCIPlacementCost>, rootCosts: seq<int>, known: int, b: int,
                     c: int, sep: int, total: int, cost: int)
    requires RootJoined(next, cells, rootCosts, known) && RootUsable(cells, rootCosts, b, c, known)
    requires AtMostPair(cells[b], sep, total) && rootCosts[c] <= cost
    ensures |next| == known + 1 && AtMostPair(next[b + c], sep + b * c, total + cost)
  {}

  /** Nothing can be taken under a root without endpoints. */
  lemma EmptyRootAdds(nodes: seq<PCITreeNode>, roots: seq<nat>, paths: seq<Path>, r: nat, forced: seq<int>,
                      free: seq<int>, forcedSubtree: seq<int>, capacity: seq<int>, s: Selection)
    requires Tables(nodes, roots, paths, forced, free, forcedSubtree, capacity)
    requires r < |roots| && roots[r] < |nodes| && capacity[roots[r]] == 0 && Allowed(s, forced, free)
    ensures RootsTaken(paths, roots, s, r + 1) == RootsTaken(paths, roots, s, r)
    ensures RootsCross(paths, roots, s, r + 1) == RootsCross(paths, roots, s, r)
    ensures RootsInner(paths, roots, s, r + 1) == RootsInner(paths, roots, s, r)
  {
    AllowedCounts(s, forced, free);
    TakenWithinCapacity(nodes, roots, paths, s, roots[r], forced, free, forcedSubtree, capacity);
    hide Taken;
    NothingTaken(paths, s, roots[r], 0);
    OuterCostSplits(paths, s, roots[r], 0);
  }

  lemma EmptyRoot(nodes: seq<PCITreeNode>, roots: seq<nat>, paths: seq<Path>, r: nat, known: int, forced: seq<int>,
                  free: seq<int>, forcedSubtree: seq<int>, capacity: seq<int>, cells: seq<PCIPlacementCost>)
    requires Tables(nodes, roots, paths, forced, free, forcedSubtree, capacity)
    requires r < |roots| && roots[r] < |nodes| && capacity[roots[r]] == 0
    requires ForestCells(cells, paths, roots, r, forced, free, known)
    ensures ForestCells(cells, paths, roots, r + 1, forced, free, known)
  {
    hide Allowed, RootsTaken, RootsCross, RootsInner, Tables;
    forall s | Allowed(s, forced, free)
      ensures RootsTaken(paths, roots, s, r + 1) == RootsTaken(paths, roots, s, r)
      ensures RootsCross(paths, roots, s, r + 1) == RootsCross(paths, roots, s, r)
      ensures RootsInner(paths, roots, s, r + 1) == RootsInner(paths, roots, s, r)
    {
      EmptyRootAdds(nodes, roots, paths, r, forced, free, forcedSubtree, capacity, s);
    }
    var r' := r + 1;
    forall t | 0 <= t <= known && cells[t].valid ensures PlacementReached(cells[t], t, paths, roots, r', forced, free) {
      assert PlacementReached(cells[t], t, paths, roots, r, forced, free);
      var s :| Allowed(s, forced, free) && RootsTaken(paths, roots, s, r) == t &&
        RootsCross(paths, roots, s, r) == cells[t].separateRoots &&
          RootsInner(paths, roots, s, r) == cells[t].totalDistance;
      assert RootsTaken(paths, roots, s, r') == t;
    }
  }

  // ----- the filter on the counts of one root -----

  ghost function SumAt(roots: seq<nat>, xs: seq<int>, r: nat): int
    requires r <= |roots| && forall i | 0 <= i < |roots| :: roots[i] < |xs|
  {
    if r == 0 then 0 else SumAt(roots, xs, r - 1) + xs[roots[r - 1]]
  }

  /** The counts of the other roots bound the count of one root from both sides. */
  lemma {:induction false} OthersBound(nodes: seq<PCITreeNode>, roots: seq<nat>, paths: seq<Path>, s: Selection, r: nat,
                                       q: nat, forced: seq<int>, free: seq<int>, forcedSubtree: seq<int>,
                                       capacity: seq<int>)
    requires Tables(nodes, roots, paths, forced, free, forcedSubtree, capacity)
    requires Allowed(s, forced, free) && r < |roots| && q <= |roots|
    requires forall i | 0 <= i < |roots| :: roots[i] < |nodes|
    ensures var own, t := roots[r], Taken(paths, s, roots[r]);
            if r < q
            then RootsTaken(paths, roots, s, q) - t <= SumAt(roots, capacity, q) - capacity[own] &&
                 SumAt(roots, forcedSubtree, q) - forcedSubtree[own] <= RootsTaken(paths, roots, s, q) - t
            else SumAt(roots, forcedSubtree, q) <= RootsTaken(paths, roots, s, q) <= SumAt(roots, capacity, q)
  {
    if q > 0 {
      OthersBound(nodes, roots, paths, s, r, q - 1, forced, free, forcedSubtree, capacity);
      TakenWithinCapacity(nodes, roots, paths, s, roots[q - 1], forced, free, forcedSubtree, capacity);
    }
  }

  // ----- the algorithm -----

  method SumOfRoots(roots: seq<nat>, xs: seq<int>) returns (total: int)
    requires forall i | 0 <= i < |roots| :: roots[i] < |xs|
    ensures total == SumAt(roots, xs, |roots|)
  {
    total := 0;
    for i := 0 to |roots|
      invariant total == SumAt(roots, xs, i)
    {
      total := total + xs[roots[i]];
    }
  }

  /** The cost table of one root; counts that no completion can use are left at the sentinel. */
  method RootTable(nodes: seq<PCITreeNode>, root: nat, knownCount: nat, minimum: int, maximum: int, forced: seq<int>,
                   free: seq<int>, forcedSubtree: seq<int>, capacity: seq<int>, ghost roots: seq<nat>,
                   ghost paths: seq<Path>)
    returns (rootCosts: seq<int>)
    requires Tables(nodes, roots, paths, forced, free, forcedSubtree, capacity) && root < |nodes|
    requires maximum <= capacity[root]
    ensures |rootCosts| == Min(capacity[root], knownCount) + 1
    ensures RootCosts(rootCosts, paths, root, forced, free, minimum, maximum)
  {
    TakenWithinCapacity(nodes, roots, paths, forced, root, forced, free, forcedSubtree, capacity);
    var table := new int[Min(capacity[root], knownCount) + 1];
    for count := 0 to table.Length
      invariant forall c | 0 <= c < count :: RootEntry(table[c], paths, root, c, forced, free, minimum, maximum)
    {
      table[count] := IMPOSSIBLE_PCI_COST;
      if count < minimum || count > maximum {
        continue;
      }
      var costs := PCISubtreeCosts(nodes, root, count, forced, free, forcedSubtree, capacity, roots, paths);
      table[count] := costs[count];
      EntryFromCells(costs, paths, root, count, forced, free, minimum, maximum);
    }
    rootCosts := table[..];
    forall s | Allowed(s, forced, free) && 0 <= Taken(paths, s, root) < |rootCosts| &&
      minimum <= Taken(paths, s, root) <= maximum
      ensures rootCosts[Taken(paths, s, root)] <= InnerCost(paths, s, root, Taken(paths, s, root))
    {
      var c := Taken(paths, s, root);
      assert RootEntry(table[c], paths, root, c, forced, free, minimum, maximum);
    }
    forall c | 0 <= c < |rootCosts| && rootCosts[c] != IMPOSSIBLE_PCI_COST
      ensures Reached(rootCosts, c, paths, root, c, forced, free) {
      assert RootEntry(table[c], paths, root, c, forced, free, minimum, maximum);
    }
  }

  ghost predicate RootEntry(cost: int, paths: seq<Path>, root: nat, c: int, forced: seq<int>, free: seq<int>,
                            least: int, most: int) {
    && (least <= c <= most ==> forall s | Allowed(s, forced, free) && Taken(paths, s, root) == c ::
        cost <= InnerCost(paths, s, root, c))
    && (cost != IMPOSSIBLE_PCI_COST ==> exists s ::
        Allowed(s, forced, free) && Taken(paths, s, root) == c && InnerCost(paths, s, root, c) == cost)
  }

  lemma EntryFromCells(costs: seq<int>, paths: seq<Path>, root: nat, c: int, forced: seq<int>, free: seq<int>,
                       least: int, most: int)
    requires 0 <= c < |costs| && CellsOf(costs, paths, root, c, forced, free)
    ensures RootEntry(costs[c], paths, root, c, forced, free, least, most)
  {}

  /** The range of counts tried for a root leaves out no completion. */
  lemma WindowKeepsCompletions(nodes: seq<PCITreeNode>, roots: seq<nat>, paths: seq<Path>, r: nat, known: int,
                               forced: seq<int>, free: seq<int>, forcedSubtree: seq<int>, capacity: seq<int>,
                               least: int, most: int)
    requires Tables(nodes, roots, paths, forced, free, forcedSubtree, capacity) && r < |roots|
    requires forall i | 0 <= i < |roots| :: roots[i] < |nodes|
    requires least == Max(forcedSubtree[roots[r]], known - (SumAt(roots, capacity, |roots|) - capacity[roots[r]]))
    requires most == Min(capacity[roots[r]], known - (SumAt(roots, forcedSubtree, |roots|) - forcedSubtree[roots[r]]))
    ensures TakesBetween(paths, roots, r, forced, free, known, least, most)
  {
    hide RootsTaken, Taken, SumAt, Forest;
    forall s | Completes(paths, roots, s, forced, free, known) ensures least <= Taken(paths, s, roots[r]) <= most {
      OthersBound(nodes, roots, paths, s, r, |roots|, forced, free, forcedSubtree, capacity);
      TakenWithinCapacity(nodes, roots, paths, s, roots[r], forced, free, forcedSubtree, capacity);
    }
  }

  lemma LastCell(cells: seq<PCIPlacementCost>, paths: seq<Path>, roots: seq<nat>, forced: seq<int>, free: seq<int>,
                 known: nat)
    requires ForestCells(cells, paths, roots, |roots|, forced, free, known)
    ensures |cells| == known + 1 && BestPlacement(cells[known], paths, roots, forced, free, known)
  {}

  /** The loop body for a root with endpoints. */
  method NextForest(nodes: seq<PCITreeNode>, roots: seq<nat>, r: nat, knownCount: nat, totalForced: int,
                    totalCapacity: int, forest: array<PCIPlacementCost>, forced: seq<int>, free: seq<int>,
                    forcedSubtree: seq<int>, capacity: seq<int>, ghost paths: seq<Path>)
    returns (next: array<PCIPlacementCost>)
    requires Tables(nodes, roots, paths, forced, free, forcedSubtree, capacity)
    requires FitsMachine(|nodes|, knownCount) && r < |roots|
    requires forall i | 0 <= i < |roots| :: roots[i] < |nodes|
    requires totalCapacity == SumAt(roots, capacity, |roots|) && totalForced == SumAt(roots, forcedSubtree, |roots|)
    requires forest.Length == knownCount + 1 && ForestCells(forest[..], paths, roots, r, forced, free, knownCount)
    ensures fresh(next) && next.Length == knownCount + 1
    ensures ForestCells(next[..], paths, roots, r + 1, forced, free, knownCount)
  {
    hide ForestCells, FitsMachine, SumAt, RootCosts, TakesBetween, Tables, Forest, Counts, RootJoined, RootSumsFit;
    TableSizes(nodes, roots, paths, forced, free, forcedSubtree, capacity);
    var root := roots[r];
    var minimum := Max(forcedSubtree[root], knownCount - (totalCapacity - capacity[root]));
    var maximum := Min(capacity[root], knownCount - (totalForced - forcedSubtree[root]));
    var rootCosts := RootTable(nodes, root, knownCount, minimum, maximum, forced, free, forcedSubtree, capacity, roots,
                               paths);
    ghost var cells := forest[..];
    RootSumsInRange(nodes, roots, paths, r, knownCount, forced, free, forcedSubtree, capacity, cells, rootCosts,
                    minimum, maximum);
    next := JoinRoot(forest, rootCosts, knownCount);
    WindowKeepsCompletions(nodes, roots, paths, r, knownCount, forced, free, forcedSubtree, capacity, minimum, maximum);
    NextRoot(nodes, roots, paths, r, knownCount, forced, free, forcedSubtree, capacity, cells, rootCosts, next[..],
             minimum, maximum);
  }

  /** The knapsack over the roots. */
  method PCIForestCost(nodes: seq<PCITreeNode>, roots: seq<nat>, knownCount: nat, forced: seq<int>, free: seq<int>,
                       forcedSubtree: seq<int>, capacity: seq<int>, ghost paths: seq<Path>)
    returns (best: PCIPlacementCost)
    requires Tables(nodes, roots, paths, forced, free, forcedSubtree, capacity)
    requires FitsMachine(|nodes|, knownCount)
    ensures BestPlacement(best, paths, roots, forced, free, knownCount)
  {
    hide Tables, Forest, Counts, ForestCells, FitsMachine, BestPlacement;
    TableSizes(nodes, roots, paths, forced, free, forcedSubtree, capacity);
    var forest := new PCIPlacementCost[knownCount + 1](_ => NO_PLACEMENT);
    forest[0] := PCIPlacementCost(0, 0, true);
    FirstRoot(forest[..], paths, roots, forced, free, knownCount);
    var totalCapacity := SumOfRoots(roots, capacity);
    var totalForced := SumOfRoots(roots, forcedSubtree);
    for r := 0 to |roots|
      invariant forest.Length == knownCount + 1
      invariant ForestCells(forest[..], paths, roots, r, forced, free, knownCount)
    {
      if capacity[roots[r]] == 0 {
        EmptyRoot(nodes, roots, paths, r, knownCount, forced, free, forcedSubtree, capacity, forest[..]);
        continue;
      }
      forest := NextForest(nodes, roots, r, knownCount, totalForced, totalCapacity, forest, forced, free,
                           forcedSubtree, capacity, paths);
    }
    best := forest[knownCount];
    LastCell(forest[..], paths, roots, forced, free, knownCount);
  }

  lemma FirstRoot(cells: seq<PCIPlacementCost>, paths: seq<Path>, roots: seq<nat>, forced: seq<int>, free: seq<int>,
                  known: nat)
    requires |cells| == known + 1 && cells[0] == PCIPlacementCost(0, 0, true)
    requires forall t | 0 < t <= known :: cells[t] == NO_PLACEMENT
    requires |forced| == |free| && Counts(free, |free|)
    ensures ForestCells(cells, paths, roots, 0, forced, free, known)
  {
    var r: nat := 0;
    assert Allowed(forced, forced, free) && RootsTaken(paths, roots, forced, r) == 0;
    assert PlacementReached(cells[0], 0, paths, roots, r, forced, free);
  }
}
