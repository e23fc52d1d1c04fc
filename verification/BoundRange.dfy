/**
 The numbers that add and lowerBound form (topology_allocator.go:164-192, 278-290) stay in the
 range of a machine integer for allocations of the size the knapsack allows.
 */
module BoundRange {
  import opened Sums
  import opened Machine
  import opened Pairs
  import opened PCITopology
  import opened EdgeIdentity
  import opened Subtrees
  import opened ForestKnapsack
  import opened Placement
  import opened Score
  import opened Allocator
  import opened Exhaustive
  import opened Bounds

  /** No distance exceeds the number of nodes. */
  lemma HopsAtMostNodes(a: TopologyAllocator, paths: seq<Path>, i: nat, j: nat)
    requires a.Topology(paths) && i < |a.devices| && j < |a.devices|
    ensures 0 <= a.pairs[i][j].hops <= |a.tree.nodes|
  {
    hide Sum, EdgeBetween, PathDistance, Forest;
    PairKinds(a, paths, i, j);
    var u, w := a.Place()(i), a.Place()(j);
    var separates := v => if EdgeBetween(a.tree.nodes, paths, v, u, w) then 1 else 0;
    HopsAreEdgesBetween(a.tree.nodes, a.tree.roots, paths, u, w, separates);
    SumBounded(|paths|, separates, 1);
    SamePlaces(a, paths);
  }

  lemma SamePlaces(a: TopologyAllocator, paths: seq<Path>)
    requires a.Topology(paths)
    ensures |a.tree.nodes| == |paths|
  {}

  lemma LeastDistanceAtMostNodes(a: TopologyAllocator, paths: seq<Path>, m: int)
    requires a.Topology(paths) && LeastDistance(a, m)
    ensures 0 <= m <= |a.tree.nodes|
  {
    if m > 0 {
      var i, j :| 0 <= j < i < |a.devices| && ConnectedAt(a, i, j, m);
      PairKinds(a, paths, i, j);
      HopsAtMostNodes(a, paths, i, j);
    }
  }

  lemma SelectionCounts(n: nat, xs: seq<int>, place: int -> int)
    ensures Counts(SelectionOf(n, xs, place), n)
  {
    hide Count;
  }

  /** The fields of the score of at most k devices, and with it every value they take while the
      devices are added one by one. */
  lemma ScoreInRange(a: TopologyAllocator, paths: seq<Path>, xs: seq<int>, k: int)
    requires a.Topology(paths) && Indices(a, xs) && |xs| <= k && FitsMachine(|a.tree.nodes|, k)
    ensures 0 <= ScoreAt(a, xs).unknownNUMA <= |xs| && 0 <= ScoreAt(a, xs).unknownPCI <= |xs|
    ensures 0 <= 2 * ScoreAt(a, xs).separateRoots <= |xs| * |xs| <= k * k <= MAX_INT
    ensures 0 <= ScoreAt(a, xs).totalDistance < IMPOSSIBLE_PCI_COST
    ensures ScoreAt(a, xs).separateRoots <= Choose2(|xs| - ScoreAt(a, xs).unknownPCI)
  {
    hide PairSum, PairMax, Count, Labels, RootsTaken, RootsCross, RootsInner, FitsMachine, TopologyAllocator.Topology;
    var s := SelectionOf(|paths|, xs, a.Place());
    FitsFactors(|a.tree.nodes|, k);
    ForestOf(a, paths);
    SelectionCost(a, paths, xs);
    SelectionCounts(|paths|, xs, a.Place());
    RootsInnerBound(a.tree.nodes, a.tree.roots, paths, s, |a.tree.roots|, k);
    RootsCrossBound(paths, a.tree.roots, s, |a.tree.roots|);
    ProductMonotone(RootsTaken(paths, a.tree.roots, s, |a.tree.roots|), |xs|);
    ProductMonotone(|xs|, k);
    ConnectedPairs(a, paths, xs);
    ConnectedGrows(a, [], xs);
    assert [] + xs == xs;
    NoConnected(a);
  }

  lemma NoConnected(a: TopologyAllocator)
    ensures PairSum([], Connected(a)) == 0
  {}

  lemma ForestOf(a: TopologyAllocator, paths: seq<Path>)
    requires a.Topology(paths)
    ensures Forest(a.tree.nodes, a.tree.roots, paths) && |a.tree.nodes| == |paths|
  {}

  lemma ProductMonotone(x: int, y: int)
    requires 0 <= x <= y
    ensures x * x <= y * y
  {
    Monotone(x, x, y);
    Monotone(y, x, y);
  }

  /** The new pairs of a completion, before and after they are weighted and added. */
  lemma NewPairsInRange(m: nat, r: nat, k: int, separate: int, minSeparate: int)
    requires m + r == k && k * k <= MAX_INT && 0 <= 2 * separate <= m * m && (minSeparate == 0 || minSeparate == 1)
    ensures 0 <= r * m <= MAX_INT && 0 <= r * (r - 1) <= MAX_INT
    ensures var newPairs := r * m + r * (r - 1) / 2;
            0 <= newPairs <= MAX_INT && 0 <= newPairs * minSeparate <= MAX_INT &&
            0 <= 2 * (separate + newPairs * minSeparate) <= k * k
  {
    ProductNonNegative(r, m);
    NonNegativePairs(r);
    SquareGrows(m, r);
    assert r * (r - 1) == r * r - r;
    SquareNonNegative(m);
    var newPairs := r * m + r * (r - 1) / 2;
    assert newPairs * minSeparate == if minSeparate == 0 then 0 else newPairs;
  }

  lemma NonNegativePairs(r: nat)
    ensures 0 <= r * (r - 1)
  {
    if r > 0 { ProductNonNegative(r, r - 1); }
  }

  /** Half of known * (known - 1) is at most twice k*k/4. */
  lemma PairsBelowSquare(known: nat, k: int)
    requires known <= k
    ensures 0 <= known * (known - 1) <= k * k
    ensures known * (known - 1) / 2 <= 2 * (k * k / 4)
  {
    NonNegativePairs(known);
    assert known * (known - 1) == known * known - known;
    ProductMonotone(known, k);
    SquareMonotone(known, k);
    if known > 2 { SquareNonNegative(known); }
  }

  /** The products that bound the distances of the pairs that must become connected. */
  lemma DistancesInRange(now: nat, finally: nat, k: int, nodeCount: nat, separateNow: int, separateFinally: int, m: int,
                         total: int)
    requires now <= k && finally <= k && FitsMachine(nodeCount, k) && 0 <= m <= nodeCount
    requires 0 <= separateNow <= now * (now - 1) / 2 && 0 <= 2 * separateFinally <= k * k &&
             0 <= total < IMPOSSIBLE_PCI_COST
    ensures 0 <= now * (now - 1) <= MAX_INT && 0 <= finally * (finally - 1) <= MAX_INT
    ensures var connectedNow, connectedFinally := now * (now - 1) / 2 - separateNow,
            finally * (finally - 1) / 2 - separateFinally;
            var gain := Max(0, connectedFinally - connectedNow);
            Int64(connectedNow) && Int64(connectedFinally) && Int64(connectedFinally - connectedNow) &&
            0 <= gain * m <= total + gain * m <= MAX_INT
  {
    hide FitsMachine;
    FitsFactors(nodeCount, k);
    PairsBelowSquare(now, k);
    PairsBelowSquare(finally, k);
    var gain := Max(0, finally * (finally - 1) / 2 - separateFinally - (now * (now - 1) / 2 - separateNow));
    var q := k * k / 4;
    GainTimesDistance(gain, m, q, nodeCount);
  }

  lemma GainTimesDistance(gain: nat, m: nat, q: nat, nodeCount: nat)
    requires gain <= 2 * q && m <= nodeCount
    ensures 0 <= gain * m <= 2 * (nodeCount * q)
  {
    ProductNonNegative(gain, m);
    Monotone(gain, m, nodeCount);
    Monotone(nodeCount, gain, 2 * q);
  }
}
