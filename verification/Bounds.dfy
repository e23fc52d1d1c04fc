/**
 What every completion of a search state must cost, score field by score field
 (topology_allocator.go:262-320).
 */
module Bounds {
  import opened Ordering
  import opened Sums
  import opened Machine
  import opened Pairs
  import opened PCITopology
  import opened EdgeIdentity
  import opened ForestKnapsack
  import opened Placement
  import opened Score
  import opened Allocator

  ghost predicate Indices(a: TopologyAllocator, xs: seq<int>) {
    forall i | 0 <= i < |xs| :: 0 <= xs[i] < |a.devices|
  }

  /** The chosen devices and the candidates still to be considered, in ID order and all different. */
  ghost predicate SearchState(a: TopologyAllocator, paths: seq<Path>, chosen: seq<int>, rest: seq<int>) {
    && a.Topology(paths)
    && Indices(a, chosen) && Indices(a, rest)
    && Distinct(chosen) && Ascending(rest)
    && forall i, j | 0 <= i < |chosen| && 0 <= j < |rest| :: chosen[i] != rest[j]
  }

  ghost predicate Completion(rest: seq<int>, remaining: int, es: seq<int>) {
    SubList(es, rest) && |es| == remaining
  }

  lemma CompletionFacts(a: TopologyAllocator, paths: seq<Path>, chosen: seq<int>, rest: seq<int>, remaining: int,
                        es: seq<int>)
    requires SearchState(a, paths, chosen, rest) && Completion(rest, remaining, es)
    ensures Indices(a, es) && Indices(a, chosen + es) && Distinct(chosen + es)
  {}

  // ----- devices without NUMA or PCI information -----

  /** If only so many of the candidates have a property, the others among the taken lack it. */
  lemma LackingAtLeast(chosen: seq<int>, rest: seq<int>, remaining: int, es: seq<int>, has: int -> bool,
                       lacks: int -> bool)
    requires Ascending(rest) && Completion(rest, remaining, es)
    requires forall x :: has(x) == !lacks(x)
    ensures Count(chosen, lacks) + Max(0, remaining - Count(rest, has)) <= Count(chosen + es, lacks)
  {
    CountConcat(chosen, es, lacks);
    forall i | 0 <= i < |es| ensures has(es[i]) == !lacks(es[i]) { var x := es[i]; assert has(x) == !lacks(x); }
    CountComplement(es, has, lacks);
    CountSubList(es, rest, has);
  }

  lemma UnknownNUMABound(a: TopologyAllocator, chosen: seq<int>, rest: seq<int>, remaining: int, es: seq<int>)
    requires Ascending(rest) && Completion(rest, remaining, es)
    ensures Count(chosen, a.Attr().UnknownNUMA()) + Max(0, remaining - Count(rest, a.Attr().KnownNUMA()))
            <= Count(chosen + es, a.Attr().UnknownNUMA())
  {
    LackingAtLeast(chosen, rest, remaining, es, a.Attr().KnownNUMA(), a.Attr().UnknownNUMA());
  }

  lemma UnknownPCIBound(a: TopologyAllocator, chosen: seq<int>, rest: seq<int>, remaining: int, es: seq<int>)
    requires Ascending(rest) && Completion(rest, remaining, es)
    ensures Count(chosen, a.Attr().UnknownPCI()) + Max(0, remaining - Count(rest, a.Attr().hasPCI))
            <= Count(chosen + es, a.Attr().UnknownPCI())
  {
    LackingAtLeast(chosen, rest, remaining, es, a.Attr().hasPCI, a.Attr().UnknownPCI());
  }

  lemma SubsetCard<K>(s: set<K>, t: set<K>)
    requires s <= t
    ensures |s| <= |t|
  {
    assert t == s + (t - s);
  }

  /** More devices never mean fewer NUMA nodes. */
  lemma NUMANodesBound(a: TopologyAllocator, chosen: seq<int>, es: seq<int>)
    ensures |Labels(chosen, a.Attr().KnownNUMA(), a.Attr().numa)| <=
            |Labels(chosen + es, a.Attr().KnownNUMA(), a.Attr().numa)|
  {
    forall i | 0 <= i < |chosen| ensures chosen[i] in chosen + es { assert (chosen + es)[i] == chosen[i]; }
    LabelsSubset(chosen, chosen + es, a.Attr().KnownNUMA(), a.Attr().numa);
    SubsetCard(Labels(chosen, a.Attr().KnownNUMA(), a.Attr().numa),
               Labels(chosen + es, a.Attr().KnownNUMA(), a.Attr().numa));
  }

  // ----- pairs -----

  ghost function One(): (int, int) -> int { (x, y) => 1 }

  ghost function Anything(): int -> bool { x => true }

  lemma AllCounted(xs: seq<int>)
    ensures Count(xs, Anything()) == |xs|
  {}

  lemma PairCount(xs: seq<int>)
    ensures PairSum(xs, One()) == Choose2(|xs|)
  {
    PairsWithin(xs, Anything(), One());
    AllCounted(xs);
  }

  /** Every pair of different devices is under separate roots. */
  ghost predicate AllSeparate(a: TopologyAllocator) {
    forall i, j | 0 <= i < |a.devices| && 0 <= j < |a.devices| && i != j :: a.Attr().pair(i, j).separateRoots
  }

  /** No pair of different devices is closer than m. */
  ghost predicate NoCloserThan(a: TopologyAllocator, m: int) {
    forall i, j | 0 <= i < |a.devices| && 0 <= j < |a.devices| && i != j && a.Attr().pair(i, j).known ::
      m <= a.Attr().pair(i, j).hops
  }

  /** Device i and an earlier one j are connected at distance m. */
  ghost predicate ConnectedAt(a: TopologyAllocator, i: int, j: int, m: int) {
    a.Attr().pair(i, j).known && a.Attr().pair(i, j).hops == m
  }

  /** The least distance of a connected pair; 0 when there is none, or only pairs too far apart
      for a machine integer. */
  ghost predicate LeastDistance(a: TopologyAllocator, m: int) {
    && 0 <= m && NoCloserThan(a, m)
    && (m > 0 ==> exists i, j :: 0 <= j < i < |a.devices| && ConnectedAt(a, i, j, m))
    && (m == 0 ==> NoCloserThan(a, MAX_INT) || exists i, j :: 0 <= j < i < |a.devices| && ConnectedAt(a, i, j, 0))
  }

  lemma PairsAreSeparate(a: TopologyAllocator, xs: seq<int>, minSeparate: int)
    requires Indices(a, xs) && Distinct(xs)
    requires minSeparate == 1 ==> AllSeparate(a)
    ensures OnPairs(xs, Zero(), a.Attr().Separate())
    ensures minSeparate == 1 ==> OnPairs(xs, One(), a.Attr().Separate())
  {}

  lemma SeparateBound(a: TopologyAllocator, chosen: seq<int>, es: seq<int>, minSeparate: int)
    requires Indices(a, chosen + es) && Distinct(chosen + es)
    requires minSeparate == 0 || (minSeparate == 1 && AllSeparate(a))
    ensures PairSum(chosen, a.Attr().Separate()) +
            (if minSeparate == 1 then Choose2(|chosen| + |es|) - Choose2(|chosen|) else 0)
            <= PairSum(chosen + es, a.Attr().Separate())
  {
    hide PairSum, OnPairs, AllSeparate, Choose2;
    var all, separate := chosen + es, a.Attr().Separate();
    PairsAreSeparate(a, all, minSeparate);
    if minSeparate == 0 {
      PairGrowth(chosen, es, Zero(), separate);
      NoPairs(chosen);
      NoPairs(all);
    } else {
      PairGrowth(chosen, es, One(), separate);
      PairCount(chosen);
      PairCount(all);
    }
  }

  ghost function Zero(): (int, int) -> int { (x, y) => 0 }

  lemma {:induction false} NoPairs(xs: seq<int>)
    ensures PairSum(xs, Zero()) == 0
  {
    if |xs| > 0 {
      NoPairs(xs[..|xs| - 1]);
      TotalZero(xs[..|xs| - 1], y => Zero()(xs[|xs| - 1], y));
    }
  }

  ghost function Connected(a: TopologyAllocator): (int, int) -> int {
    (x, y) => if a.Attr().pair(x, y).known then 1 else 0
  }

  ghost function BothPCI(a: TopologyAllocator): (int, int) -> int {
    (x, y) => if a.Attr().hasPCI(x) && a.Attr().hasPCI(y) then 1 else 0
  }

  lemma PairKinds(a: TopologyAllocator, paths: seq<Path>, i: int, j: int)
    requires a.Topology(paths) && 0 <= i < |a.devices| && 0 <= j < |a.devices|
    ensures a.Attr().pair(i, j) == a.pairs[i][j] == NodeDistance(paths, a.Place()(i), a.Place()(j))
    ensures BothPCI(a)(i, j) == Connected(a)(i, j) + a.Attr().Separate()(i, j)
    ensures !a.pairs[i][j].known ==> a.pairs[i][j].hops == 0
    ensures a.pairs[i][j] == a.pairs[j][i]
    ensures 0 <= a.pairs[i][j].hops
  {
    DistanceSymmetric(if 0 <= a.Place()(i) < |paths| then Some(paths[a.Place()(i)]) else None,
                      if 0 <= a.Place()(j) < |paths| then Some(paths[a.Place()(j)]) else None);
  }

  lemma KnownCount(a: TopologyAllocator, xs: seq<int>)
    ensures Count(xs, a.Attr().hasPCI) == |xs| - Count(xs, a.Attr().UnknownPCI())
  {}

  /** Connected pairs are the pairs of located devices that are not under separate roots. */
  lemma ConnectedPairs(a: TopologyAllocator, paths: seq<Path>, xs: seq<int>)
    requires a.Topology(paths) && Indices(a, xs)
    ensures PairSum(xs, Connected(a)) ==
            Choose2(|xs| - Count(xs, a.Attr().UnknownPCI())) - PairSum(xs, a.Attr().Separate())
  {
    forall i, j | 0 <= i < j < |xs|
      ensures BothPCI(a)(xs[j], xs[i]) == Connected(a)(xs[j], xs[i]) + a.Attr().Separate()(xs[j], xs[i]) {
      PairKinds(a, paths, xs[j], xs[i]);
    }
    PairSumAdd(xs, Connected(a), a.Attr().Separate(), BothPCI(a));
    LocatedPairs(a, xs);
  }

  lemma LocatedPairs(a: TopologyAllocator, xs: seq<int>)
    ensures PairSum(xs, BothPCI(a)) == Choose2(|xs| - Count(xs, a.Attr().UnknownPCI()))
  {
    hide PairSum, Count, Choose2;
    PairsWithin(xs, a.Attr().hasPCI, BothPCI(a));
    KnownCount(a, xs);
  }

  lemma ConnectedGrows(a: TopologyAllocator, chosen: seq<int>, es: seq<int>)
    ensures PairSum(chosen, Connected(a)) <= PairSum(chosen + es, Connected(a))
  {
    PairGrowth(chosen, es, Zero(), Connected(a));
    NoPairs(chosen);
    NoPairs(chosen + es);
  }

  ghost function Closest(a: TopologyAllocator, m: int): (int, int) -> int {
    (x, y) => if a.Attr().pair(x, y).known then m else 0
  }

  /** Each new connected pair adds at least the minimum distance. */
  lemma TotalBound(a: TopologyAllocator, chosen: seq<int>, es: seq<int>, m: int)
    requires Indices(a, chosen + es) && Distinct(chosen + es) && NoCloserThan(a, m)
    ensures PairSum(chosen, Connected(a)) <= PairSum(chosen + es, Connected(a))
    ensures PairSum(chosen, a.Attr().Hops()) +
            Multiple(PairSum(chosen + es, Connected(a)) - PairSum(chosen, Connected(a)), m)
            <= PairSum(chosen + es, a.Attr().Hops())
  {
    hide PairSum, Multiple;
    var all := chosen + es;
    assert OnPairs(all, Closest(a, m), a.Attr().Hops()) by {
      assert forall i, j | 0 <= i < j < |all| :: all[i] != all[j];
    }
    PairGrowth(chosen, es, Closest(a, m), a.Attr().Hops());
    PairSumScaled(chosen, Closest(a, m), Connected(a), m);
    PairSumScaled(all, Closest(a, m), Connected(a), m);
    ConnectedGrows(a, chosen, es);
    var now, added := PairSum(chosen, Connected(a)), PairSum(all, Connected(a)) - PairSum(chosen, Connected(a));
    MultipleAdds(now, added, m);
  }

  lemma {:induction false} PositiveTotal(xs: seq<int>, f: int -> int) returns (k: int)
    requires Total(xs, f) > 0
    ensures 0 <= k < |xs| && f(xs[k]) > 0
  {
    if f(xs[|xs| - 1]) > 0 { k := |xs| - 1; } else { k := PositiveTotal(xs[..|xs| - 1], f); }
  }

  lemma {:induction false} PositivePair(xs: seq<int>, w: (int, int) -> int) returns (i: int, j: int)
    requires PairSum(xs, w) > 0
    ensures 0 <= i < j < |xs| && w(xs[j], xs[i]) > 0
  {
    var init, z := xs[..|xs| - 1], xs[|xs| - 1];
    if PairSum(init, w) > 0 {
      i, j := PositivePair(init, w);
    } else {
      i := PositiveTotal(init, y => w(z, y));
      j := |xs| - 1;
    }
  }

  /** A connected pair makes the maximum at least the minimum distance. */
  lemma MaxBound(a: TopologyAllocator, xs: seq<int>, m: int)
    requires Indices(a, xs) && Distinct(xs) && NoCloserThan(a, m) && PairSum(xs, Connected(a)) > 0
    ensures m <= PairMax(xs, a.Attr().Hops())
  {
    var i, j := PositivePair(xs, Connected(a));
    PairMaxSpec(xs, a.Attr().Hops());
    assert xs[i] != xs[j];
    assert a.Attr().Hops()(xs[j], xs[i]) <= PairMax(xs, a.Attr().Hops());
  }

  // ----- the order statistic -----

  ghost function FarthestFrom(a: TopologyAllocator, chosen: seq<int>): int -> int {
    x => RowMax(chosen, y => a.Attr().pair(x, y).hops)
  }

  ghost function CloserThan(f: int -> int, t: int): int -> bool {
    x => f(x) < t
  }

  ghost function Mapped(xs: seq<int>, f: int -> int): seq<int> {
    Renamed(xs, f)
  }

  ghost function Below(t: int): int -> bool { x => x < t }

  lemma {:induction false} SortedCount(ws: seq<int>, r: int)
    requires NonDecreasing(ws) && 0 < r <= |ws|
    ensures Count(ws, Below(ws[r - 1])) < r
  {
    if r == |ws| {
      assert !Below(ws[r - 1])(ws[|ws| - 1]);
    } else {
      SortedCount(ws[..|ws| - 1], r);
      assert !Below(ws[r - 1])(ws[|ws| - 1]);
    }
  }

  /** Any r of the candidates include one that is at least as far as the r-th nearest. */
  lemma OrderStatistic(rest: seq<int>, r: int, es: seq<int>, f: int -> int, ws: seq<int>) returns (k: int)
    requires Ascending(rest) && Completion(rest, r, es) && 0 < r <= |rest|
    requires ws == Sorted(Mapped(rest, f))
    ensures 0 <= k < |es| && ws[r - 1] <= f(es[k])
  {
    var t := ws[r - 1];
    SortedCount(ws, r);
    CountRearranged(ws, Mapped(rest, f), Below(t));
    CountRenamed(rest, f, CloserThan(f, t), Below(t));
    CountSubList(es, rest, CloserThan(f, t));
    if forall i | 0 <= i < |es| :: f(es[i]) < t {
      CountExt(es, CloserThan(f, t), Anything());
      AllCounted(es);
      assert false;
    }
    k :| 0 <= k < |es| && !(f(es[k]) < t);
  }

  lemma WorstBound(a: TopologyAllocator, paths: seq<Path>, chosen: seq<int>, rest: seq<int>, r: int, es: seq<int>,
                   ws: seq<int>)
    requires SearchState(a, paths, chosen, rest) && Completion(rest, r, es) && 0 < r <= |rest|
    requires ws == Sorted(Mapped(rest, FarthestFrom(a, chosen)))
    ensures ws[r - 1] <= PairMax(chosen + es, a.Attr().Hops())
  {
    CompletionFacts(a, paths, chosen, rest, r, es);
    var k := OrderStatistic(rest, r, es, FarthestFrom(a, chosen), ws);
    var all := chosen + es;
    var row := y => a.Attr().pair(es[k], y).hops;
    RowMaxExt(chosen, y => a.Attr().pair(es[k], y).hops, row);
    RowMaxAttained(chosen, row);
    PairMaxSpec(all, a.Attr().Hops());
    if RowMax(chosen, row) > 0 {
      var j :| 0 <= j < |chosen| && row(chosen[j]) == RowMax(chosen, row);
      assert all[j] == chosen[j] && all[|chosen| + k] == es[k];
      PairKinds(a, paths, es[k], chosen[j]);
      assert a.Attr().Hops()(all[|chosen| + k], all[j]) <= PairMax(all, a.Attr().Hops());
    }
  }

  lemma {:induction false} RowMaxAttained(xs: seq<int>, f: int -> int)
    ensures RowMax(xs, f) == 0 || exists i :: 0 <= i < |xs| && f(xs[i]) == RowMax(xs, f)
  {
    if |xs| > 0 {
      RowMaxAttained(xs[..|xs| - 1], f);
      if RowMax(xs, f) != 0 {
        if RowMax(xs, f) == f(xs[|xs| - 1]) {
        } else {
          var i :| 0 <= i < |xs| - 1 && f(xs[..|xs| - 1][i]) == RowMax(xs, f);
          assert f(xs[i]) == RowMax(xs, f);
        }
      }
    }
  }

  // ----- the PCI placement -----

  /** The PCI fields of the score of a set of devices are the cost of its selection of endpoints. */
  lemma SelectionCost(a: TopologyAllocator, paths: seq<Path>, xs: seq<int>)
    requires a.Topology(paths) && Indices(a, xs)
    ensures var s := SelectionOf(|paths|, xs, a.Place());
            PairSum(xs, a.Attr().Separate()) == RootsCross(paths, a.tree.roots, s, |a.tree.roots|) &&
            PairSum(xs, a.Attr().Hops()) == RootsInner(paths, a.tree.roots, s, |a.tree.roots|) &&
            |xs| - Count(xs, a.Attr().UnknownPCI()) == RootsTaken(paths, a.tree.roots, s, |a.tree.roots|)
  {
    hide PairSum, Count;
    var place := a.Place();
    AllRootsTaken(a.tree.nodes, a.tree.roots, paths, xs, place);
    LocatedCount(a, paths, xs);
    forall i, j | 0 <= i < j < |xs|
      ensures a.Attr().Separate()(xs[j], xs[i]) == if NodeDistance(paths, place(xs[j]), place(xs[i])).separateRoots
              then 1 else 0
      ensures a.Attr().Hops()(xs[j], xs[i]) == NodeHops(paths, place(xs[j]), place(xs[i]))
    {
      PairKinds(a, paths, xs[j], xs[i]);
    }
    CostOfDevices(a.tree.nodes, a.tree.roots, paths, xs, place, a.Attr().Separate(), a.Attr().Hops());
  }

  /** A completion with exactly known located devices costs at least the best placement. */
  lemma PlacementBound(a: TopologyAllocator, paths: seq<Path>, chosen: seq<int>, rest: seq<int>, r: int, es: seq<int>,
                       c: PCIPlacementCost, known: int)
    requires SearchState(a, paths, chosen, rest) && Completion(rest, r, es)
    requires BestPlacement(c, paths, a.tree.roots, SelectionOf(|paths|, chosen, a.Place()),
                           SelectionOf(|paths|, rest, a.Place()), known)
    requires |chosen + es| - Count(chosen + es, a.Attr().UnknownPCI()) == known
    ensures AtMostPair(c, PairSum(chosen + es, a.Attr().Separate()), PairSum(chosen + es, a.Attr().Hops()))
  {
    CompletionFacts(a, paths, chosen, rest, r, es);
    var s := SelectionOf(|paths|, chosen + es, a.Place());
    CompletionAllowed(|paths|, chosen, es, rest, a.Place());
    SelectionCost(a, paths, chosen + es);
    assert Completes(paths, a.tree.roots, s, SelectionOf(|paths|, chosen, a.Place()),
                     SelectionOf(|paths|, rest, a.Place()), known);
  }

  lemma LocatedCount(a: TopologyAllocator, paths: seq<Path>, xs: seq<int>)
    requires a.Topology(paths) && Indices(a, xs)
    ensures Count(xs, Located(a.Place(), |paths|)) == |xs| - Count(xs, a.Attr().UnknownPCI())
  {
    forall i | 0 <= i < |xs| ensures Located(a.Place(), |paths|)(xs[i]) == a.Attr().hasPCI(xs[i]) {
      assert a.devices[xs[i]].hasPCI <==> 0 <= a.Place()(xs[i]) < |paths|;
    }
    CountExt(xs, Located(a.Place(), |paths|), a.Attr().hasPCI);
    KnownCount(a, xs);
  }
}
