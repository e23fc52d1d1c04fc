/**
 Admissibility of lowerBound (topology_allocator.go:262-320): whichever of its four results is
 returned, it is lexicographically no worse than the score of any completion.
 */
module Admissibility {
  import opened Ordering
  import opened Sums
  import opened Pairs
  import opened PCITopology
  import opened ForestKnapsack
  import opened Placement
  import opened Score
  import opened Allocator
  import opened Bounds
  import opened CardPacking

  /** The facts a search state gives the bound: devices per card among the chosen and the remaining
      candidates, and the smallest distance and separation over all pairs. */
  ghost predicate BoundTables(a: TopologyAllocator, chosen: seq<int>, rest: seq<int>, counts: seq<int>, caps: seq<int>,
                              minDistance: int, minSeparate: int)
  {
    && |counts| == |caps| == a.sidCount
    && CountsCards(counts, chosen, a.Attr().group) && CountsCards(caps, rest, a.Attr().group)
    && 0 <= minDistance && NoCloserThan(a, minDistance)
    && (minSeparate == 0 || (minSeparate == 1 && AllSeparate(a)))
  }

  // The scores s and f below are those of the chosen devices and of a completion, field by field.

  ghost predicate LocalityFields(s: AllocationScore, xs: seq<int>, a: TopologyAllocator) {
    && s.unknownNUMA == Count(xs, a.Attr().UnknownNUMA())
    && s.numaNodes == |Labels(xs, a.Attr().KnownNUMA(), a.Attr().numa)|
    && s.sidGroups == |Labels(xs, a.Attr().Present(), a.Attr().group)|
  }

  ghost predicate PCIFields(s: AllocationScore, xs: seq<int>, a: TopologyAllocator) {
    && s.unknownPCI == Count(xs, a.Attr().UnknownPCI())
    && s.separateRoots == PairSum(xs, a.Attr().Separate())
    && s.maxDistance == PairMax(xs, a.Attr().Hops())
    && s.totalDistance == PairSum(xs, a.Attr().Hops())
  }

  lemma ScoreFields(xs: seq<int>, a: TopologyAllocator)
    ensures LocalityFields(ScoreOf(xs, a.Attr()), xs, a) && PCIFields(ScoreOf(xs, a.Attr()), xs, a)
  {}

  /** The fields that are bounded one by one. */
  ghost function BaseBound(s: AllocationScore, a: TopologyAllocator, m: int, rest: seq<int>, r: int, counts: seq<int>,
                           caps: seq<int>, minSeparate: int): AllocationScore
    requires |counts| == |caps|
  {
    AllocationScore(
      s.unknownNUMA + Max(0, r - Count(rest, a.Attr().KnownNUMA())),
      s.numaNodes,
      s.sidGroups + NewCards(counts, caps, r),
      s.unknownPCI + Max(0, r - Count(rest, a.Attr().hasPCI)),
      s.separateRoots + (if minSeparate == 1 then Choose2(m + r) - Choose2(m) else 0),
      s.maxDistance, s.totalDistance)
  }

  ghost predicate FieldsAtMost(b: AllocationScore, f: AllocationScore) {
    && b.unknownNUMA <= f.unknownNUMA && b.numaNodes <= f.numaNodes && b.sidGroups <= f.sidGroups
    && b.unknownPCI <= f.unknownPCI && b.separateRoots <= f.separateRoots
    && b.maxDistance <= f.maxDistance && b.totalDistance <= f.totalDistance
  }

  lemma CardsOfIndices(a: TopologyAllocator, paths: seq<Path>, xs: seq<int>)
    requires a.Topology(paths) && Indices(a, xs)
    ensures CardsBelow(xs, a.Attr().group, a.sidCount)
  {}

  lemma LocalityAdmissible(a: TopologyAllocator, paths: seq<Path>, chosen: seq<int>, rest: seq<int>, r: int,
                           es: seq<int>, counts: seq<int>, caps: seq<int>, minDistance: int, minSeparate: int,
                           s: AllocationScore, f: AllocationScore)
    requires SearchState(a, paths, chosen, rest) && Completion(rest, r, es)
    requires BoundTables(a, chosen, rest, counts, caps, minDistance, minSeparate)
    requires LocalityFields(s, chosen, a) && LocalityFields(f, chosen + es, a)
    ensures s.unknownNUMA + Max(0, r - Count(rest, a.Attr().KnownNUMA())) <= f.unknownNUMA
    ensures s.numaNodes <= f.numaNodes
    ensures s.sidGroups + NewCards(counts, caps, r) <= f.sidGroups
  {
    CompletionFacts(a, paths, chosen, rest, r, es);
    UnknownNUMABound(a, chosen, rest, r, es);
    NUMANodesBound(a, chosen, es);
    CardsOfIndices(a, paths, chosen);
    CardsOfIndices(a, paths, es);
    CardBound(chosen, es, rest, a.Attr().Present(), a.Attr().group, counts, caps);
  }

  lemma PCIAdmissible(a: TopologyAllocator, paths: seq<Path>, chosen: seq<int>, rest: seq<int>, r: int, es: seq<int>,
                      minSeparate: int, s: AllocationScore, f: AllocationScore)
    requires SearchState(a, paths, chosen, rest) && Completion(rest, r, es)
    requires minSeparate == 0 || (minSeparate == 1 && AllSeparate(a))
    requires PCIFields(s, chosen, a) && PCIFields(f, chosen + es, a)
    ensures s.unknownPCI + Max(0, r - Count(rest, a.Attr().hasPCI)) <= f.unknownPCI
    ensures s.separateRoots + (if minSeparate == 1 then Choose2(|chosen| + r) - Choose2(|chosen|) else 0) <=
            f.separateRoots
    ensures s.maxDistance <= f.maxDistance && s.totalDistance <= f.totalDistance
  {
    hide PairSum, PairMax, Count, Labels, Choose2, Multiple, AllSeparate, SubList, TopologyAllocator.Topology;
    CompletionFacts(a, paths, chosen, rest, r, es);
    UnknownPCIBound(a, chosen, rest, r, es);
    SeparateBound(a, chosen, es, minSeparate);
    PairMaxMonotone(chosen, es, a.Attr().Hops());
    HopsGrow(a, paths, chosen, es);
  }

  /** Every field of the base bound is at most that field of the completion's score. */
  lemma BaseAdmissible(a: TopologyAllocator, paths: seq<Path>, chosen: seq<int>, rest: seq<int>, r: int, es: seq<int>,
                       counts: seq<int>, caps: seq<int>, minDistance: int, minSeparate: int, s: AllocationScore,
                       f: AllocationScore)
    requires SearchState(a, paths, chosen, rest) && Completion(rest, r, es)
    requires BoundTables(a, chosen, rest, counts, caps, minDistance, minSeparate)
    requires LocalityFields(s, chosen, a) && LocalityFields(f, chosen + es, a)
    requires PCIFields(s, chosen, a) && PCIFields(f, chosen + es, a)
    ensures FieldsAtMost(BaseBound(s, a, |chosen|, rest, r, counts, caps, minSeparate), f)
  {
    hide PairSum, PairMax, Count, Labels, Choose2, Multiple;
    LocalityAdmissible(a, paths, chosen, rest, r, es, counts, caps, minDistance, minSeparate, s, f);
    PCIAdmissible(a, paths, chosen, rest, r, es, minSeparate, s, f);
  }

  lemma HopsGrow(a: TopologyAllocator, paths: seq<Path>, chosen: seq<int>, es: seq<int>)
    requires a.Topology(paths) && Indices(a, chosen + es)
    ensures PairSum(chosen, a.Attr().Hops()) <= PairSum(chosen + es, a.Attr().Hops())
  {
    var all := chosen + es;
    forall i, j | 0 <= i < j < |all| ensures Zero()(all[j], all[i]) <= a.Attr().Hops()(all[j], all[i]) {
      PairKinds(a, paths, all[j], all[i]);
    }
    PairGrowth(chosen, es, Zero(), a.Attr().Hops());
    NoPairs(chosen);
    NoPairs(all);
  }

  /** The last three fields, once the first four are tied. */
  ghost predicate TailAtMost(b: AllocationScore, f: AllocationScore) {
    b.separateRoots < f.separateRoots || (b.separateRoots == f.separateRoots &&
    (b.maxDistance < f.maxDistance || (b.maxDistance == f.maxDistance && b.totalDistance <= f.totalDistance)))
  }

  lemma FromTail(b: AllocationScore, f: AllocationScore)
    requires b.unknownNUMA <= f.unknownNUMA && b.numaNodes <= f.numaNodes && b.sidGroups <= f.sidGroups &&
             b.unknownPCI <= f.unknownPCI
    requires Tied4(b, f) ==> TailAtMost(b, f)
    ensures AtLeastAsGood(b, f)
  {}

  /** Connected pairs as the bound counts them: pairs of located devices not under separate roots. */
  ghost function ConnectedIn(count: int, s: AllocationScore): int {
    Choose2(count - s.unknownPCI) - s.separateRoots
  }

  /** The first two results: minimum distance for every pair that must become connected. */
  ghost function CheapBound(base: AllocationScore, s: AllocationScore, m: int, r: int, minDistance: int):
    AllocationScore
  {
    var now, finally := ConnectedIn(m, s), ConnectedIn(m + r, base);
    base.(totalDistance := base.totalDistance + Multiple(Max(0, finally - now), minDistance),
          maxDistance := if finally > 0 then Max(base.maxDistance, minDistance) else base.maxDistance)
  }

  lemma ConnectedInIs(a: TopologyAllocator, paths: seq<Path>, xs: seq<int>, s: AllocationScore)
    requires a.Topology(paths) && Indices(a, xs) && PCIFields(s, xs, a)
    ensures ConnectedIn(|xs|, s) == PairSum(xs, Connected(a))
  {
    hide PairSum, PairMax, Count, Labels, Choose2, Multiple;
    ConnectedPairs(a, paths, xs);
  }

  /** When the completion ties on the located devices and separate pairs, its connected pairs are
      those of the bound. */
  lemma CheapAdmissible(a: TopologyAllocator, paths: seq<Path>, chosen: seq<int>, rest: seq<int>, r: int, es: seq<int>,
                        counts: seq<int>, caps: seq<int>, minDistance: int, minSeparate: int, s: AllocationScore,
                        f: AllocationScore)
    requires SearchState(a, paths, chosen, rest) && Completion(rest, r, es)
    requires BoundTables(a, chosen, rest, counts, caps, minDistance, minSeparate)
    requires LocalityFields(s, chosen, a) && LocalityFields(f, chosen + es, a)
    requires PCIFields(s, chosen, a) && PCIFields(f, chosen + es, a)
    ensures AtLeastAsGood(CheapBound(BaseBound(s, a, |chosen|, rest, r, counts, caps, minSeparate), s, |chosen|, r,
                                     minDistance), f)
  {
    hide PairSum, PairMax, Count, Labels, Choose2, Multiple;
    var base := BaseBound(s, a, |chosen|, rest, r, counts, caps, minSeparate);
    BaseAdmissible(a, paths, chosen, rest, r, es, counts, caps, minDistance, minSeparate, s, f);
    if Tied4(base, f) && base.separateRoots == f.separateRoots {
      CompletionFacts(a, paths, chosen, rest, r, es);
      CheapTail(a, paths, chosen, es, minDistance, base, s, f);
    }
    FromTail(CheapBound(base, s, |chosen|, r, minDistance), f);
  }

  lemma CheapTail(a: TopologyAllocator, paths: seq<Path>, chosen: seq<int>, es: seq<int>, minDistance: int,
                  base: AllocationScore, s: AllocationScore, f: AllocationScore)
    requires a.Topology(paths) && Indices(a, chosen) && Indices(a, chosen + es) && Distinct(chosen + es)
    requires NoCloserThan(a, minDistance)
    requires PCIFields(s, chosen, a) && PCIFields(f, chosen + es, a)
    requires base.maxDistance == s.maxDistance && base.totalDistance == s.totalDistance
    requires base.unknownPCI == f.unknownPCI && base.separateRoots == f.separateRoots
    ensures var cheap := CheapBound(base, s, |chosen|, |es|, minDistance);
            cheap.maxDistance <= f.maxDistance && cheap.totalDistance <= f.totalDistance
  {
    hide PairSum, PairMax, Count, Labels, Choose2, Multiple;
    ConnectedInIs(a, paths, chosen, s);
    ConnectedInIs(a, paths, chosen + es, f);
    TotalBound(a, chosen, es, minDistance);
    PairMaxMonotone(chosen, es, a.Attr().Hops());
    if PairSum(chosen + es, Connected(a)) > 0 { MaxBound(a, chosen + es, minDistance); }
  }

  /** The third result: the distance of the r-th nearest candidate. */
  lemma WorstAdmissible(a: TopologyAllocator, paths: seq<Path>, chosen: seq<int>, rest: seq<int>, r: int, es: seq<int>,
                        counts: seq<int>, caps: seq<int>, minDistance: int, minSeparate: int, ws: seq<int>,
                        s: AllocationScore, f: AllocationScore)
    requires SearchState(a, paths, chosen, rest) && Completion(rest, r, es) && 0 < r <= |rest|
    requires BoundTables(a, chosen, rest, counts, caps, minDistance, minSeparate)
    requires LocalityFields(s, chosen, a) && LocalityFields(f, chosen + es, a)
    requires PCIFields(s, chosen, a) && PCIFields(f, chosen + es, a)
    requires ws == Sorted(Mapped(rest, FarthestFrom(a, chosen)))
    ensures var base := BaseBound(s, a, |chosen|, rest, r, counts, caps, minSeparate);
            AtLeastAsGood(base.(maxDistance := Max(base.maxDistance, ws[r - 1])), f)
  {
    hide PairSum, PairMax, Count, Labels, Choose2, Multiple;
    BaseAdmissible(a, paths, chosen, rest, r, es, counts, caps, minDistance, minSeparate, s, f);
    WorstBound(a, paths, chosen, rest, r, es, ws);
    var base := BaseBound(s, a, |chosen|, rest, r, counts, caps, minSeparate);
    FromTail(base.(maxDistance := Max(base.maxDistance, ws[r - 1])), f);
  }

  /** The fourth result: the best placement of the located devices in the forest. */
  ghost function PlacedBound(base: AllocationScore, worst: int, c: PCIPlacementCost, count: int, minDistance: int):
    AllocationScore
  {
    var max := Max(base.maxDistance, worst);
    base.(separateRoots := c.separateRoots, totalDistance := c.totalDistance,
          maxDistance := if Choose2(count - base.unknownPCI) > c.separateRoots then Max(max, minDistance) else max)
  }

  lemma PlacedAdmissible(a: TopologyAllocator, paths: seq<Path>, chosen: seq<int>, rest: seq<int>, r: int, es: seq<int>,
                         counts: seq<int>, caps: seq<int>, minDistance: int, minSeparate: int, ws: seq<int>,
                         c: PCIPlacementCost, s: AllocationScore, f: AllocationScore)
    requires SearchState(a, paths, chosen, rest) && Completion(rest, r, es) && 0 < r <= |rest|
    requires BoundTables(a, chosen, rest, counts, caps, minDistance, minSeparate)
    requires LocalityFields(s, chosen, a) && LocalityFields(f, chosen + es, a)
    requires PCIFields(s, chosen, a) && PCIFields(f, chosen + es, a)
    requires ws == Sorted(Mapped(rest, FarthestFrom(a, chosen)))
    requires BestPlacement(c, paths, a.tree.roots, SelectionOf(|paths|, chosen, a.Place()),
                           SelectionOf(|paths|, rest, a.Place()),
                           |chosen| + r - BaseBound(s, a, |chosen|, rest, r, counts, caps, minSeparate).unknownPCI)
    ensures var base := BaseBound(s, a, |chosen|, rest, r, counts, caps, minSeparate);
            AtLeastAsGood(PlacedBound(base, ws[r - 1], c, |chosen| + r, minDistance), f)
  {
    hide PairSum, PairMax, Count, Labels, Choose2, Multiple;
    var base := BaseBound(s, a, |chosen|, rest, r, counts, caps, minSeparate);
    BaseAdmissible(a, paths, chosen, rest, r, es, counts, caps, minDistance, minSeparate, s, f);
    if Tied4(base, f) {
      PlacedTail(a, paths, chosen, rest, r, es, minDistance, ws, c, base, f);
    }
    FromTail(PlacedBound(base, ws[r - 1], c, |chosen| + r, minDistance), f);
  }

  lemma PlacedTail(a: TopologyAllocator, paths: seq<Path>, chosen: seq<int>, rest: seq<int>, r: int, es: seq<int>,
                   minDistance: int, ws: seq<int>, c: PCIPlacementCost, base: AllocationScore, f: AllocationScore)
    requires SearchState(a, paths, chosen, rest) && Completion(rest, r, es) && 0 < r <= |rest|
    requires NoCloserThan(a, minDistance) && PCIFields(f, chosen + es, a)
    requires ws == Sorted(Mapped(rest, FarthestFrom(a, chosen)))
    requires BestPlacement(c, paths, a.tree.roots, SelectionOf(|paths|, chosen, a.Place()),
                           SelectionOf(|paths|, rest, a.Place()),
                           |chosen| + r - base.unknownPCI)
    requires base.unknownPCI == f.unknownPCI && base.maxDistance <= f.maxDistance
    ensures TailAtMost(PlacedBound(base, ws[r - 1], c, |chosen| + r, minDistance), f)
  {
    hide PairSum, PairMax, Count, Labels, Choose2, Multiple;
    hide BestPlacement, SelectionOf, Sorted, NoCloserThan;
    WorstBound(a, paths, chosen, rest, r, es, ws);
    CompletionFacts(a, paths, chosen, rest, r, es);
    PlacementBound(a, paths, chosen, rest, r, es, c, |chosen| + r - base.unknownPCI);
    ConnectedInIs(a, paths, chosen + es, f);
    if PairSum(chosen + es, Connected(a)) > 0 { MaxBound(a, chosen + es, minDistance); }
  }
}
