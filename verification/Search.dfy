/**
 allocationSearch (topology_allocator.go:154-320): the branch-and-bound search over combinations.
 Its state is changed in place and undone; its result is that of the exhaustive enumeration.
 */
module Search {
  import opened Ordering
  import opened Sums
  import opened Machine
  import opened Pairs
  import opened PCITopology
  import opened EdgeIdentity
  import opened ForestKnapsack
  import opened Placement
  import opened Score
  import opened Allocator
  import opened Bounds
  import opened BoundRange
  import opened Exactness
  import opened CardPacking
  import opened Exhaustive
  import opened Admissibility
  import opened Tally

  /** One more endpoint at the node of the k-th device, if it has one. */
  lemma EndpointStep(n: nat, xs: seq<int>, k: nat, place: int -> int)
    requires k < |xs|
    ensures SelectionOf(n, xs[..k + 1], place) ==
            if 0 <= place(xs[k]) < n
            then SelectionOf(n, xs[..k], place)[place(xs[k]) := SelectionOf(n, xs[..k], place)[place(xs[k])] + 1]
            else SelectionOf(n, xs[..k], place)
  {
    hide Count;
    assert xs[..k + 1] == xs[..k] + [xs[k]];
    forall u { CountAdd(xs[..k], xs[k], At(place, u)); }
  }

  lemma NoEndpoints(n: nat, place: int -> int)
    ensures forall u | 0 <= u < n :: SelectionOf(n, [], place)[u] == 0
  {}

  lemma FarthestStep(a: TopologyAllocator, paths: seq<Path>, chosen: seq<int>, k: nat, candidate: nat)
    requires a.Topology(paths) && k < |chosen| && Indices(a, chosen) && candidate < |a.devices|
    ensures chosen[k] < |a.pairs[candidate]|
    ensures RowMax(chosen[..k + 1], FarRow(a, candidate)) ==
            Max(RowMax(chosen[..k], FarRow(a, candidate)), a.pairs[candidate][chosen[k]].hops)
  {
    hide RowMax;
    RowStep(chosen, k, FarRow(a, candidate));
    var other := chosen[k];
    PairKinds(a, paths, candidate, other);
    assert FarRow(a, candidate)(other) == a.Attr().pair(candidate, other).hops;
  }

  ghost function FarRow(a: TopologyAllocator, candidate: int): int -> int {
    y => a.Attr().pair(candidate, y).hops
  }

  lemma FarthestIsRow(a: TopologyAllocator, chosen: seq<int>, candidate: int)
    ensures FarthestFrom(a, chosen)(candidate) == RowMax(chosen, FarRow(a, candidate))
  {}

  lemma MappedStep(xs: seq<int>, k: nat, f: int -> int)
    requires k < |xs|
    ensures Mapped(xs[..k + 1], f) == Mapped(xs[..k], f) + [f(xs[k])]
  {}

  lemma TallyRanges(a: TopologyAllocator, paths: seq<Path>, chosen: seq<int>, score: AllocationScore, sids: seq<int>,
                    numas: seq<int>, index: nat)
    requires a.Topology(paths) && index < |a.devices| && Tallies(a, chosen, score, sids, numas)
    ensures 0 <= a.devices[index].sid < |sids| && a.devices[index].numa < |numas|
    ensures Indices(a, chosen) && 0 <= score.maxDistance
  {
    PairMaxSpec(chosen, a.Attr().Hops());
  }

  lemma NothingTallied(a: TopologyAllocator, sids: seq<int>, numas: seq<int>)
    requires |sids| == a.sidCount && |numas| == a.numaCount
    requires (forall g | 0 <= g < |sids| :: sids[g] == 0) && (forall g | 0 <= g < |numas| :: numas[g] == 0)
    ensures Tallies(a, [], ZERO_SCORE, sids, numas)
  {}

  ghost predicate AdmissibleFor(a: TopologyAllocator, chosen: seq<int>, rest: seq<int>, remaining: int,
                                bound: AllocationScore) {
    forall es | Completion(rest, remaining, es) :: AtLeastAsGood(bound, ScoreAt(a, chosen + es))
  }

  lemma CheapIsAdmissible(a: TopologyAllocator, paths: seq<Path>, chosen: seq<int>, rest: seq<int>, r: int,
                          s: AllocationScore, counts: seq<int>, caps: seq<int>, minDistance: int, minSeparate: int,
                          bound: AllocationScore)
    requires SearchState(a, paths, chosen, rest) && BoundTables(a, chosen, rest, counts, caps, minDistance, minSeparate)
    requires s == ScoreAt(a, chosen)
    requires bound == CheapBound(BaseBound(s, a, |chosen|, rest, r, counts, caps, minSeparate), s, |chosen|, r,
                                 minDistance)
    ensures AdmissibleFor(a, chosen, rest, r, bound)
  {
    hide Count, PairSum, PairMax, Labels, CheapBound, BaseBound, SearchState, BoundTables;
    forall es | Completion(rest, r, es) ensures AtLeastAsGood(bound, ScoreAt(a, chosen + es)) {
      ScoreFields(chosen, a);
      ScoreFields(chosen + es, a);
      CheapAdmissible(a, paths, chosen, rest, r, es, counts, caps, minDistance, minSeparate, s,
                      ScoreAt(a, chosen + es));
    }
  }

  lemma WorstIsAdmissible(a: TopologyAllocator, paths: seq<Path>, chosen: seq<int>, rest: seq<int>, r: int,
                          s: AllocationScore, counts: seq<int>, caps: seq<int>, minDistance: int, minSeparate: int,
                          ws: seq<int>, bound: AllocationScore)
    requires SearchState(a, paths, chosen, rest) && BoundTables(a, chosen, rest, counts, caps, minDistance, minSeparate)
    requires s == ScoreAt(a, chosen) && 0 < r <= |rest| && ws == Sorted(Mapped(rest, FarthestFrom(a, chosen)))
    requires var base := BaseBound(s, a, |chosen|, rest, r, counts, caps, minSeparate);
             bound == base.(maxDistance := Max(base.maxDistance, ws[r - 1]))
    ensures AdmissibleFor(a, chosen, rest, r, bound)
  {
    hide Count, PairSum, PairMax, Labels, BaseBound, SearchState, BoundTables;
    forall es | Completion(rest, r, es) ensures AtLeastAsGood(bound, ScoreAt(a, chosen + es)) {
      ScoreFields(chosen, a);
      ScoreFields(chosen + es, a);
      WorstAdmissible(a, paths, chosen, rest, r, es, counts, caps, minDistance, minSeparate, ws, s,
                      ScoreAt(a, chosen + es));
    }
  }

  lemma PlacedIsAdmissible(a: TopologyAllocator, paths: seq<Path>, chosen: seq<int>, rest: seq<int>, r: int,
                           s: AllocationScore, counts: seq<int>, caps: seq<int>, minDistance: int, minSeparate: int,
                           ws: seq<int>, c: PCIPlacementCost, bound: AllocationScore)
    requires SearchState(a, paths, chosen, rest) && BoundTables(a, chosen, rest, counts, caps, minDistance, minSeparate)
    requires s == ScoreAt(a, chosen) && 0 < r <= |rest| && ws == Sorted(Mapped(rest, FarthestFrom(a, chosen)))
    requires BestPlacement(c, paths, a.tree.roots, SelectionOf(|paths|, chosen, a.Place()),
                           SelectionOf(|paths|, rest, a.Place()),
                           |chosen| + r - BaseBound(s, a, |chosen|, rest, r, counts, caps, minSeparate).unknownPCI)
    requires bound == PlacedBound(BaseBound(s, a, |chosen|, rest, r, counts, caps, minSeparate), ws[r - 1], c,
                                  |chosen| + r, minDistance)
    ensures AdmissibleFor(a, chosen, rest, r, bound)
  {
    hide Count, PairSum, PairMax, Labels, BaseBound, SearchState, BoundTables, PlacedBound, BestPlacement;
    forall es | Completion(rest, r, es) ensures AtLeastAsGood(bound, ScoreAt(a, chosen + es)) {
      ScoreFields(chosen, a);
      ScoreFields(chosen + es, a);
      PlacedAdmissible(a, paths, chosen, rest, r, es, counts, caps, minDistance, minSeparate, ws, c, s,
                       ScoreAt(a, chosen + es));
    }
  }

  /** The located devices the bound expects: never negative, never more than all of them. */
  lemma TalliedScore(a: TopologyAllocator, chosen: seq<int>, score: AllocationScore, sids: seq<int>, numas: seq<int>)
    requires Tallies(a, chosen, score, sids, numas)
    ensures score == ScoreAt(a, chosen)
  {}

  lemma KnownFinally(a: TopologyAllocator, chosen: seq<int>, rest: seq<int>, r: nat, s: AllocationScore,
                     counts: seq<int>, caps: seq<int>, minSeparate: int)
    requires s == ScoreAt(a, chosen) && |counts| == |caps|
    ensures 0 <= |chosen| - s.unknownPCI
    ensures 0 <= |chosen| + r - BaseBound(s, a, |chosen|, rest, r, counts, caps, minSeparate).unknownPCI <= |chosen| + r
    ensures BaseBound(s, a, |chosen|, rest, r, counts, caps, minSeparate).unknownPCI >= 0
  {}

  /** The bound's closed formulas for pairs and products. */
  lemma BoundFormulas(known: nat, finally: nat, gain: nat, minDistance: int)
    ensures known * (known - 1) / 2 == Choose2(known)
    ensures finally * (finally - 1) / 2 == Choose2(finally)
    ensures gain * minDistance == Multiple(gain, minDistance)
  {
    Choose2Formula(known);
    Choose2Formula(finally);
    MultipleFormula(gain, minDistance);
  }

  lemma TablesAt(a: TopologyAllocator, candidates: seq<int>, start: nat, chosen: seq<int>, sids: seq<int>,
                 suffixSID: seq<seq<int>>, suffixKnownNUMA: seq<int>, suffixKnownPCI: seq<int>, minDistance: int,
                 minSeparate: int)
    requires PreparedTables(a, candidates, suffixSID, suffixKnownNUMA, suffixKnownPCI, minDistance, minSeparate) &&
             start <= |candidates|
    requires |sids| == a.sidCount && CountsCards(sids, chosen, a.Attr().group)
    ensures start < |suffixSID| && start < |suffixKnownNUMA| && start < |suffixKnownPCI|
    ensures suffixKnownNUMA[start] == Count(candidates[start..], a.Attr().KnownNUMA())
    ensures suffixKnownPCI[start] == Count(candidates[start..], a.Attr().hasPCI)
    ensures BoundTables(a, chosen, candidates[start..], sids, suffixSID[start], minDistance, minSeparate)
    ensures |suffixSID[start]| == |sids|
  {}

  lemma PreparedFacts(a: TopologyAllocator, candidates: seq<int>, suffixSID: seq<seq<int>>,
                      suffixKnownNUMA: seq<int>, suffixKnownPCI: seq<int>, minDistance: int, minSeparate: int)
    requires PreparedTables(a, candidates, suffixSID, suffixKnownNUMA, suffixKnownPCI, minDistance, minSeparate)
    ensures Ascending(candidates) && Indices(a, candidates)
    ensures |suffixSID| == |suffixKnownNUMA| == |suffixKnownPCI| == |candidates| + 1
    ensures minSeparate == 0 || minSeparate == 1
  {}

  /** One step of the search: the chosen devices and the later candidates stay apart. */
  lemma NextState(a: TopologyAllocator, paths: seq<Path>, chosen: seq<int>, candidates: seq<int>, start: nat, i: nat)
    requires start <= i < |candidates| && Ascending(candidates) && SearchState(a, paths, chosen, candidates[start..])
    ensures 0 <= candidates[i] < |a.devices| && forall k | 0 <= k < |chosen| :: chosen[k] != candidates[i]
    ensures SearchState(a, paths, chosen + [candidates[i]], candidates[i + 1..])
  {}

  lemma LaterState(a: TopologyAllocator, paths: seq<Path>, chosen: seq<int>, candidates: seq<int>, start: nat, i: nat)
    requires start <= i <= |candidates| && Ascending(candidates) && SearchState(a, paths, chosen, candidates[start..])
    ensures SearchState(a, paths, chosen, candidates[i..])
  {}

  /** What a leaf leaves as the best choice. */
  lemma LeafKept(a: TopologyAllocator, chosen: seq<int>, score: AllocationScore, sids: seq<int>, numas: seq<int>,
                 best: Choice, bestScore: AllocationScore)
    requires Tallies(a, chosen, score, sids, numas) && (best.Some? ==> bestScore == ScoreAt(a, best.value))
    ensures score == ScoreAt(a, chosen)
    ensures Keep(a, best, chosen) == if best.None? || score.Less(bestScore) then Some(chosen) else best
  {
    hide ScoreAt;
    if best.Some? { LessIsLexicographic(score, bestScore); }
  }

  /** A bound that does not beat the best so far rules out every completion. */
  lemma NothingBetter(a: TopologyAllocator, chosen: seq<int>, candidates: seq<int>, start: nat, remaining: nat,
                      best: Choice, bound: AllocationScore)
    requires start <= |candidates| && Ascending(candidates) && best.Some?
    requires AdmissibleFor(a, chosen, candidates[start..], remaining, bound) && !bound.Less(ScoreAt(a, best.value))
    ensures Explore(a, candidates, chosen, start, remaining, best) == best
  {
    hide ScoreAt, Explore;
    LessIsLexicographic(bound, ScoreAt(a, best.value));
    forall es | From(candidates, start, remaining, es)
      ensures !Better(ScoreAt(a, chosen + es), ScoreAt(a, best.value)) {
      OrderIsTotal(bound, ScoreAt(a, best.value));
      OrderIsTransitive(ScoreAt(a, best.value), bound, ScoreAt(a, chosen + es));
      OrderIsTotal(ScoreAt(a, chosen + es), ScoreAt(a, best.value));
    }
    PruneSound(a, candidates, chosen, start, remaining, best);
  }

  class AllocationSearch {
    const allocator: TopologyAllocator
    ghost const paths: seq<Path>
    var candidates: seq<int>
    var chosen: seq<int>
    var best: Choice
    const sidCounts: array<int>
    const numaCounts: array<int>
    var score: AllocationScore
    var bestScore: AllocationScore
    var suffixSID: seq<seq<int>>
    var suffixKnownNUMA: seq<int>
    var suffixKnownPCI: seq<int>
    var minDistance: int
    var minSeparateRoots: int

    /** The running score and counts are those of the chosen devices. */
    ghost predicate Valid()
      reads this, sidCounts, numaCounts
    {
      && allocator.Topology(paths)
      && sidCounts != numaCounts
      && Tallies(allocator, chosen, score, sidCounts[..], numaCounts[..])
      && (best.Some? ==> bestScore == ScoreAt(allocator, best.value))
    }

    ghost predicate Prepared()
      reads this
    {
      PreparedTables(allocator, candidates, suffixSID, suffixKnownNUMA, suffixKnownPCI, minDistance, minSeparateRoots)
    }

    constructor (allocator: TopologyAllocator, ghost paths: seq<Path>)
      requires allocator.Topology(paths)
      ensures Valid() && fresh(sidCounts) && fresh(numaCounts)
      ensures this.allocator == allocator && this.paths == paths
      ensures candidates == [] && chosen == [] && best == None
    {
      this.allocator, this.paths := allocator, paths;
      candidates, chosen, best := [], [], None;
      sidCounts := new int[allocator.sidCount](_ => 0);
      numaCounts := new int[allocator.numaCount](_ => 0);
      score, bestScore := ZERO_SCORE, ZERO_SCORE;
      suffixSID, suffixKnownNUMA, suffixKnownPCI := [], [], [];
      minDistance, minSeparateRoots := 0, 0;
      new;
      NothingTallied(allocator, sidCounts[..], numaCounts[..]);
    }

    /** add: updates score and counts in place for one more device. */
    method Add(index: nat)
      requires Valid() && index < |allocator.devices|
      requires forall i | 0 <= i < |chosen| :: chosen[i] != index
      modifies this`chosen, this`score, sidCounts, numaCounts
      ensures Valid()
      ensures chosen == old(chosen) + [index]
      ensures sidCounts[..] == AddedCounts(old(sidCounts[..]), allocator.devices[index].sid)
      ensures numaCounts[..] == AddedCounts(old(numaCounts[..]), allocator.devices[index].numa)
    {
      hide Total, RowMax, Tallies, Count, PairSum, PairMax, Labels, ScoreAt, NodeDistance, TopologyAllocator.Topology;
      ghost var a, before, was := allocator, chosen, score;
      ghost var sids, numas := sidCounts[..], numaCounts[..];
      AddKeepsTallies(a, paths, chosen, score, sids, numas, index);
      TallyRanges(a, paths, chosen, score, sids, numas, index);
      var device := allocator.devices[index];
      if sidCounts[device.sid] == 0 {
        score := score.(sidGroups := score.sidGroups + 1);
      }
      sidCounts[device.sid] := sidCounts[device.sid] + 1;
      if device.numa < 0 {
        score := score.(unknownNUMA := score.unknownNUMA + 1);
      } else {
        if numaCounts[device.numa] == 0 {
          score := score.(numaNodes := score.numaNodes + 1);
        }
        numaCounts[device.numa] := numaCounts[device.numa] + 1;
      }
      if !device.hasPCI {
        score := score.(unknownPCI := score.unknownPCI + 1);
      }
      AddPairs(index);
      chosen := chosen + [index];
      assert score == AddedScore(a, before, was, sids, numas, index);
      assert sidCounts[..] == AddedCounts(sids, device.sid);
      assert numaCounts[..] == AddedCounts(numas, device.numa);
    }

    /** add's loop over the devices chosen before. */
    method AddPairs(index: nat)
      requires allocator.Topology(paths) && index < |allocator.devices| && Indices(allocator, chosen) &&
               0 <= score.maxDistance
      modifies this`score
      ensures score == old(score).(
        separateRoots := old(score).separateRoots + Total(chosen, SeparateRow(allocator, index)),
        maxDistance := Max(old(score).maxDistance, RowMax(chosen, HopsRow(allocator, index))),
        totalDistance := old(score).totalDistance + Total(chosen, HopsRow(allocator, index)))
    {
      ghost var was := score;
      for k := 0 to |chosen|
        invariant score == was.(
          separateRoots := was.separateRoots + Total(chosen[..k], SeparateRow(allocator, index)),
          maxDistance := Max(was.maxDistance, RowMax(chosen[..k], HopsRow(allocator, index))),
          totalDistance := was.totalDistance + Total(chosen[..k], HopsRow(allocator, index)))
      {
        AddRowStep(allocator, paths, chosen, k, index);
        var pair := allocator.pairs[index][chosen[k]];
        if pair.separateRoots {
          score := score.(separateRoots := score.separateRoots + 1);
        }
        if pair.known {
          score := score.(maxDistance := Max(score.maxDistance, pair.hops),
                          totalDistance := score.totalDistance + pair.hops);
        }
      }
      assert chosen[..|chosen|] == chosen;
    }

    /** prepareBounds: suffix tables over the candidates and the extreme pair values. */
    method PrepareBounds()
      requires Valid() && Indices(allocator, candidates) && Ascending(candidates)
      modifies this`suffixSID, this`suffixKnownNUMA, this`suffixKnownPCI, this`minDistance, this`minSeparateRoots
      ensures Valid() && Prepared()
    {
      hide Tallies, SuffixTables, LeastDistance, AllSeparate, TopologyAllocator.Topology, ScoreAt;
      suffixSID, suffixKnownNUMA, suffixKnownPCI := SuffixCounts(allocator, candidates, paths);
      minDistance, minSeparateRoots := PairExtremes(allocator, paths);
    }

    /** pciLowerBound's first loops: endpoints per tree node. */
    method Endpoints(xs: seq<int>) returns (counts: seq<int>)
      requires allocator.Topology(paths) && Indices(allocator, xs)
      ensures counts == SelectionOf(|paths|, xs, allocator.Place())
    {
      var tree := allocator.tree;
      counts := seq(|tree.nodes|, _ => 0);
      NoEndpoints(|paths|, allocator.Place());
      assert xs[..0] == [];
      for k := 0 to |xs|
        invariant counts == SelectionOf(|paths|, xs[..k], allocator.Place())
      {
        EndpointStep(|paths|, xs, k, allocator.Place());
        var id := allocator.devices[xs[k]].id;
        if id in tree.devices {
          var node := tree.devices[id];
          counts := counts[node := counts[node] + 1];
        }
      }
      assert xs[..|xs|] == xs;
    }

    /** pciLowerBound. */
    method PCILowerBound(start: nat, knownCount: nat) returns (cost: PCIPlacementCost)
      requires Valid() && start <= |candidates| && SearchState(allocator, paths, chosen, candidates[start..])
      requires FitsMachine(|allocator.tree.nodes|, knownCount)
      ensures LeastPlacement(cost, allocator, chosen, candidates[start..], knownCount)
      ensures BestPlacement(cost, paths, allocator.tree.roots, SelectionOf(|paths|, chosen, allocator.Place()),
                            SelectionOf(|paths|, candidates[start..], allocator.Place()), knownCount)
    {
      var tree := allocator.tree;
      var forced := Endpoints(chosen);
      var free := Endpoints(candidates[start..]);
      var forcedSubtree, capacity := SubtreeTotals(tree.nodes, forced, free, tree.roots, paths);
      cost := PCIForestCost(tree.nodes, tree.roots, knownCount, forced, free, forcedSubtree, capacity, paths);
      PlacementIsLeast(allocator, paths, chosen, candidates[start..], cost, knownCount);
    }

    /** The greedy part of lowerBound: how many new cards the remaining devices need. */
    method NewCardCount(start: nat, remaining: nat) returns (groups: nat)
      requires Valid() && Prepared() && start <= |candidates|
      ensures groups == NewCards(sidCounts[..], suffixSID[start], remaining)
    {
      hide ScoreAt, Count, SuffixRow, Sorted, Tallies, PreparedTables, NeedAfter, NewCapacities,
        TopologyAllocator.Topology;
      var needNew, capacities := NewCardCapacities(start, remaining);
      capacities := Sorted(capacities);
      assert capacities[..|capacities|] == capacities;
      ghost var need := needNew;
      groups := 0;
      var i := |capacities| - 1;
      while i >= 0 && needNew > 0
        invariant -1 <= i < |capacities|
        invariant groups + GreedyCards(capacities[..i + 1], needNew) == GreedyCards(capacities, need)
      {
        assert capacities[..i + 1][..i] == capacities[..i];
        groups := groups + 1;
        needNew := needNew - capacities[i];
        i := i - 1;
      }
    }

    /** What is left after filling the open cards, and the capacities of the others. */
    method NewCardCapacities(start: nat, remaining: nat) returns (needNew: int, capacities: seq<int>)
      requires Valid() && Prepared() && start <= |candidates|
      ensures |sidCounts[..]| == |suffixSID[start]|
      ensures needNew == NeedAfter(sidCounts[..], suffixSID[start], remaining, |suffixSID[start]|)
      ensures capacities == NewCapacities(sidCounts[..], suffixSID[start], |suffixSID[start]|)
    {
      hide Count, ScoreAt;
      assert SuffixRow(allocator, candidates, start, suffixSID[start], suffixKnownNUMA[start], suffixKnownPCI[start]);
      ghost var counts, caps := sidCounts[..], suffixSID[start];
      assert forall g | 0 <= g < |counts| :: 0 <= counts[g];
      needNew, capacities := remaining, [];
      for sid := 0 to |suffixSID[start]|
        invariant needNew == NeedAfter(counts, caps, remaining, sid)
        invariant capacities == NewCapacities(counts, caps, sid)
      {
        var capacity := suffixSID[start][sid];
        assert counts[sid] == sidCounts[sid];
        if sidCounts[sid] > 0 {
          needNew := needNew - capacity;
        } else if capacity > 0 {
          capacities := capacities + [capacity];
        }
      }
    }

    /** The distances of the remaining candidates to the farthest chosen device. */
    method WorstDistances(start: nat) returns (worst: seq<int>)
      requires Valid() && start <= |candidates| && Indices(allocator, candidates)
      ensures worst == Mapped(candidates[start..], FarthestFrom(allocator, chosen))
    {
      hide RowMax;
      var rest := candidates[start..];
      worst := [];
      for k := 0 to |rest|
        invariant worst == Mapped(rest[..k], FarthestFrom(allocator, chosen))
      {
        var candidate := rest[k];
        var distance := FarthestChosen(candidate);
        MappedStep(rest, k, FarthestFrom(allocator, chosen));
        worst := worst + [distance];
      }
      assert rest[..|rest|] == rest;
    }

    /** The first part of lowerBound: new cards, missing NUMA and PCI information, separate roots. */
    method BaseLowerBound(start: nat, remaining: nat) returns (bound: AllocationScore)
      requires Valid() && Prepared() && start + remaining <= |candidates|
      requires FitsMachine(|allocator.tree.nodes|, |chosen| + remaining)
      ensures 0 <= 2 * bound.separateRoots <= (|chosen| + remaining) * (|chosen| + remaining)
      ensures bound.totalDistance == score.totalDistance
      ensures BoundTables(allocator, chosen, candidates[start..], sidCounts[..], suffixSID[start], minDistance,
                          minSeparateRoots)
      ensures |sidCounts[..]| == |suffixSID[start]|
      ensures bound == BaseBound(score, allocator, |chosen|, candidates[start..], remaining, sidCounts[..],
                                 suffixSID[start], minSeparateRoots)
    {
      hide Count, ScoreAt, PreparedTables, NewCards, Choose2, BoundTables, Sorted;
      PreparedFacts(allocator, candidates, suffixSID, suffixKnownNUMA, suffixKnownPCI, minDistance, minSeparateRoots);
      TablesAt(allocator, candidates, start, chosen, sidCounts[..], suffixSID, suffixKnownNUMA, suffixKnownPCI,
               minDistance, minSeparateRoots);
      var groups := NewCardCount(start, remaining);
      bound := score.(sidGroups := score.sidGroups + groups,
                      unknownNUMA := score.unknownNUMA + Max(0, remaining - suffixKnownNUMA[start]),
                      unknownPCI := score.unknownPCI + Max(0, remaining - suffixKnownPCI[start]));
      var newPairs := remaining * |chosen| + remaining * (remaining - 1) / 2;
      ChosenInRange(remaining);
      NewPairsInRange(|chosen|, remaining, |chosen| + remaining, score.separateRoots, minSeparateRoots);
      assert newPairs <= MAX_INT && newPairs * minSeparateRoots <= score.separateRoots + newPairs * minSeparateRoots <=
        MAX_INT;
      bound := bound.(separateRoots := bound.separateRoots + newPairs * minSeparateRoots);
      NewSeparate(|chosen|, remaining, minSeparateRoots);
    }

    /** The score of the chosen devices and the least distance are in the machine range. */
    lemma ChosenInRange(remaining: nat)
      requires Valid() && Prepared() && FitsMachine(|allocator.tree.nodes|, |chosen| + remaining)
      ensures 0 <= 2 * score.separateRoots <= |chosen| * |chosen|
      ensures (|chosen| + remaining) * (|chosen| + remaining) <= MAX_INT
      ensures 0 <= score.totalDistance < IMPOSSIBLE_PCI_COST && 0 <= score.unknownPCI <= |chosen|
      ensures score.separateRoots <= Choose2(|chosen| - score.unknownPCI)
      ensures 0 <= minDistance <= |allocator.tree.nodes|
    {
      hide ScoreAt, FitsMachine, LeastDistance, TopologyAllocator.Topology;
      ScoreInRange(allocator, paths, chosen, |chosen| + remaining);
      LeastDistanceAtMostNodes(allocator, paths, minDistance);
    }

    /** The cheap bound on the PCI distances of the pairs that must become connected. */
    method CheapLowerBound(bound: AllocationScore, remaining: nat, knownFinally: nat) returns (cheap: AllocationScore)
      requires Valid() && Prepared() && FitsMachine(|allocator.tree.nodes|, |chosen| + remaining)
      requires 0 <= bound.unknownPCI && knownFinally == |chosen| + remaining - bound.unknownPCI
      requires 0 <= 2 * bound.separateRoots <= (|chosen| + remaining) * (|chosen| + remaining)
      requires bound.totalDistance == score.totalDistance
      ensures cheap == CheapBound(bound, score, |chosen|, remaining, minDistance)
    {
      hide Choose2, Multiple, Tallies, PreparedTables, FitsMachine, TopologyAllocator.Topology, ScoreAt;
      ChosenInRange(remaining);
      var knownNow := |chosen| - score.unknownPCI;
      var connectedNow := knownNow * (knownNow - 1) / 2 - score.separateRoots;
      var connectedFinally := knownFinally * (knownFinally - 1) / 2 - bound.separateRoots;
      BoundFormulas(knownNow, knownFinally, Max(0, connectedFinally - connectedNow), minDistance);
      DistancesInRange(knownNow, knownFinally, |chosen| + remaining, |allocator.tree.nodes|, score.separateRoots,
                       bound.separateRoots, minDistance, score.totalDistance);
      assert Int64(connectedNow) && Int64(connectedFinally) && Int64(connectedFinally - connectedNow);
      assert bound.totalDistance + Max(0, connectedFinally - connectedNow) * minDistance <= MAX_INT;
      cheap := bound.(totalDistance := bound.totalDistance + Max(0, connectedFinally - connectedNow) * minDistance);
      if connectedFinally > 0 {
        cheap := cheap.(maxDistance := Max(cheap.maxDistance, minDistance));
      }
    }

    /** The last part of lowerBound: the PCI placement replaces the PCI sums of the bound so far. */
    method PlacedLowerBound(start: nat, remaining: nat, knownFinally: nat, bound: AllocationScore,
                            ghost base: AllocationScore, ghost worst: int)
      returns (placed: AllocationScore, pci: PCIPlacementCost)
      requires Valid() && start <= |candidates| && SearchState(allocator, paths, chosen, candidates[start..])
      requires FitsMachine(|allocator.tree.nodes|, knownFinally)
      requires knownFinally == |chosen| + remaining - bound.unknownPCI && 0 <= bound.unknownPCI
      requires bound == base.(maxDistance := Max(base.maxDistance, worst))
      ensures BestPlacement(pci, paths, allocator.tree.roots, SelectionOf(|paths|, chosen, allocator.Place()),
                            SelectionOf(|paths|, candidates[start..], allocator.Place()), knownFinally)
      ensures placed == PlacedBound(base, worst, pci, |chosen| + remaining, minDistance)
    {
      hide ScoreAt, SearchState, Choose2, FitsMachine, BestPlacement, LeastPlacement;
      pci := PCILowerBound(start, knownFinally);
      placed := bound.(separateRoots := pci.separateRoots, totalDistance := pci.totalDistance);
      Choose2Formula(knownFinally);
      if knownFinally * (knownFinally - 1) / 2 > placed.separateRoots {
        placed := placed.(maxDistance := Max(placed.maxDistance, minDistance));
      }
    }

    /** lowerBound: no completion of the chosen devices by remaining of the candidates from start
        on has a better score than any of its four results. */
    method LowerBound(start: nat, remaining: nat) returns (bound: AllocationScore)
      requires Valid() && Prepared() && 0 < remaining && start + remaining <= |candidates|
      requires SearchState(allocator, paths, chosen, candidates[start..])
      requires FitsMachine(|allocator.tree.nodes|, |chosen| + remaining)
      ensures AdmissibleFor(allocator, chosen, candidates[start..], remaining, bound)
    {
      hide Tallies, BaseBound, Count, ScoreAt, SearchState, PreparedTables, Choose2, AdmissibleFor, BoundTables,
        FarthestFrom, Sorted, FitsMachine, BestPlacement, LeastPlacement;
      PreparedFacts(allocator, candidates, suffixSID, suffixKnownNUMA, suffixKnownPCI, minDistance, minSeparateRoots);
      ghost var a, rest, s := allocator, candidates[start..], score;
      ghost var counts, caps := sidCounts[..], suffixSID[start];
      TalliedScore(a, chosen, s, counts, numaCounts[..]);
      bound := BaseLowerBound(start, remaining);
      KnownFinally(a, chosen, rest, remaining, s, counts, caps, minSeparateRoots);
      var knownFinally := |chosen| + remaining - bound.unknownPCI;
      FitsSmaller(|a.tree.nodes|, knownFinally, |chosen| + remaining);
      var cheap := CheapLowerBound(bound, remaining, knownFinally);
      CheapIsAdmissible(a, paths, chosen, rest, remaining, s, counts, caps, minDistance, minSeparateRoots, cheap);
      if !cheap.Less(bestScore) {
        return cheap;
      }
      if Compare(bound.Values()[..4], bestScore.Values()[..4]) < 0 {
        return cheap;
      }
      var worst := WorstDistances(start);
      worst := Sorted(worst);
      ghost var base := bound;
      bound := bound.(maxDistance := Max(bound.maxDistance, worst[remaining - 1]));
      WorstIsAdmissible(a, paths, chosen, rest, remaining, s, counts, caps, minDistance, minSeparateRoots, worst,
                        bound);
      if !bound.Less(bestScore) {
        return;
      }
      var pci;
      bound, pci := PlacedLowerBound(start, remaining, knownFinally, bound, base, worst[remaining - 1]);
      PlacedIsAdmissible(a, paths, chosen, rest, remaining, s, counts, caps, minDistance, minSeparateRoots, worst, pci,
                         bound);
    }

    /** search: adds remaining of the candidates from start on, in every way that can still matter.
        Its effect on the best choice is that of the exhaustive enumeration, and everything else is
        put back. */
    method Search(start: nat, remaining: nat)
      requires Valid() && Prepared() && start <= |candidates|
      requires SearchState(allocator, paths, chosen, candidates[start..])
      requires start + remaining <= |candidates| ==> FitsMachine(|allocator.tree.nodes|, |chosen| + remaining)
      modifies this`chosen, this`best, this`score, this`bestScore, sidCounts, numaCounts
      ensures Valid()
      ensures chosen == old(chosen) && score == old(score)
      ensures sidCounts[..] == old(sidCounts[..]) && numaCounts[..] == old(numaCounts[..])
      ensures best == Explore(allocator, candidates, chosen, start, remaining, old(best))
      decreases remaining, 1
    {
      hide Count, ScoreAt, SearchState, Tallies, PreparedTables, AdmissibleFor, FitsMachine;
      if remaining == 0 {
        if best.None? || score.Less(bestScore) {
          best := Some(chosen);
          bestScore := score;
        }
        LeafKept(allocator, chosen, score, sidCounts[..], numaCounts[..], old(best), old(bestScore));
        return;
      }
      if |candidates| - start < remaining {
        return;
      }
      PreparedFacts(allocator, candidates, suffixSID, suffixKnownNUMA, suffixKnownPCI, minDistance, minSeparateRoots);
      if best.Some? {
        var bound := LowerBound(start, remaining);
        if !bound.Less(bestScore) {
          NothingBetter(allocator, chosen, candidates, start, remaining, best, bound);
          return;
        }
      }
      var i := start;
      while i <= |candidates| - remaining
        invariant start <= i <= |candidates| - remaining + 1
        invariant Valid() && Prepared()
        invariant chosen == old(chosen) && score == old(score)
        invariant sidCounts[..] == old(sidCounts[..]) && numaCounts[..] == old(numaCounts[..])
        invariant Explore(allocator, candidates, chosen, i, remaining, best) ==
                  Explore(allocator, candidates, chosen, start, remaining, old(best))
      {
        LaterState(allocator, paths, chosen, candidates, start, i);
        Branch(i, remaining);
        i := i + 1;
      }
    }

    /** The body of search's loop: tries candidate i, then undoes it. */
    method Branch(i: nat, remaining: nat)
      requires Valid() && Prepared() && 0 < remaining && i < |candidates|
      requires SearchState(allocator, paths, chosen, candidates[i..])
      requires FitsMachine(|allocator.tree.nodes|, |chosen| + remaining)
      modifies this`chosen, this`best, this`score, this`bestScore, sidCounts, numaCounts
      ensures Valid()
      ensures chosen == old(chosen) && score == old(score)
      ensures sidCounts[..] == old(sidCounts[..]) && numaCounts[..] == old(numaCounts[..])
      ensures best == Explore(allocator, candidates, chosen + [candidates[i]], i + 1, remaining - 1, old(best))
      decreases remaining, 0
    {
      hide Count, ScoreAt, SearchState, Tallies, PreparedTables, FitsMachine, Explore;
      PreparedFacts(allocator, candidates, suffixSID, suffixKnownNUMA, suffixKnownPCI, minDistance, minSeparateRoots);
      NextState(allocator, paths, chosen, candidates, i, i);
      var index := candidates[i];
      var previous := score;
      TallyRanges(allocator, paths, chosen, score, sidCounts[..], numaCounts[..], index);
      Add(index);
      Search(i + 1, remaining - 1);
      chosen := chosen[..|chosen| - 1];
      Undo(index);
      score := previous;
    }

    /** Takes one device out of the counts again. */
    method Undo(index: nat)
      requires index < |allocator.devices| && sidCounts != numaCounts
      requires 0 <= allocator.devices[index].sid < sidCounts.Length && allocator.devices[index].numa < numaCounts.Length
      modifies sidCounts, numaCounts
      ensures forall sids | old(sidCounts[..]) == AddedCounts(sids, allocator.devices[index].sid) ::
              sidCounts[..] == sids
      ensures forall numas | old(numaCounts[..]) == AddedCounts(numas, allocator.devices[index].numa) ::
              numaCounts[..] == numas
    {
      var device := allocator.devices[index];
      sidCounts[device.sid] := sidCounts[device.sid] - 1;
      if device.numa >= 0 {
        numaCounts[device.numa] := numaCounts[device.numa] - 1;
      }
    }

    method FarthestChosen(candidate: nat) returns (distance: int)
      requires Valid() && candidate < |allocator.devices|
      ensures distance == FarthestFrom(allocator, chosen)(candidate)
    {
      distance := 0;
      for k := 0 to |chosen|
        invariant distance == RowMax(chosen[..k], FarRow(allocator, candidate))
      {
        FarthestStep(allocator, paths, chosen, k, candidate);
        distance := Max(distance, allocator.pairs[candidate][chosen[k]].hops);
      }
      assert chosen[..|chosen|] == chosen;
      FarthestIsRow(allocator, chosen, candidate);
    }
  }

  /** The suffix tables, filled from the last candidate to the first. */
  method SuffixCounts(a: TopologyAllocator, candidates: seq<int>, ghost paths: seq<Path>)
    returns (suffixSID: seq<seq<int>>, suffixKnownNUMA: seq<int>, suffixKnownPCI: seq<int>)
    requires a.Topology(paths) && Indices(a, candidates)
    ensures SuffixTables(a, candidates, 0, suffixSID, suffixKnownNUMA, suffixKnownPCI)
  {
    hide SuffixRow;
    suffixSID, suffixKnownNUMA, suffixKnownPCI := [seq(a.sidCount, _ => 0)], [0], [0];
    SuffixEnd(a, candidates, suffixSID[0]);
    var i := |candidates|;
    while i > 0
      invariant 0 <= i <= |candidates|
      invariant SuffixTables(a, candidates, i, suffixSID, suffixKnownNUMA, suffixKnownPCI)
    {
      i := i - 1;
      SuffixTablesStep(a, paths, candidates, i, suffixSID, suffixKnownNUMA, suffixKnownPCI);
      var device := a.devices[candidates[i]];
      suffixSID := [suffixSID[0][device.sid := suffixSID[0][device.sid] + 1]] + suffixSID;
      suffixKnownNUMA := [suffixKnownNUMA[0] + if device.numa >= 0 then 1 else 0] + suffixKnownNUMA;
      suffixKnownPCI := [suffixKnownPCI[0] + if device.hasPCI then 1 else 0] + suffixKnownPCI;
    }
  }

  /** The last loop of prepareBounds: the least distance of a connected pair, and whether all pairs
      are under separate roots. */
  method PairExtremes(a: TopologyAllocator, ghost paths: seq<Path>) returns (minDistance: int, minSeparate: int)
    requires a.Topology(paths)
    ensures LeastDistance(a, minDistance)
    ensures minSeparate == if AllSeparate(a) then 1 else 0
  {
    hide TopologyAllocator.Attr, NodeDistance;
    minDistance, minSeparate := MAX_INT, 1;
    ghost var near, joined: (int, int) := (0, 0), (0, 0);
    for i := 0 to |a.devices|
      invariant Extremes(a, minDistance, minSeparate, near, joined)
      invariant forall x, y | 0 <= y < x < i :: PairSeen(a, x, y, minDistance, minSeparate)
    {
      for j := 0 to i
        invariant Extremes(a, minDistance, minSeparate, near, joined)
        invariant forall x, y | 0 <= y < x < i :: PairSeen(a, x, y, minDistance, minSeparate)
        invariant forall y | 0 <= y < j :: PairSeen(a, i, y, minDistance, minSeparate)
      {
        EntryIsPair(a, paths, i, j);
        ghost var least, flag := minDistance, minSeparate;
        var pair := a.pairs[i][j];
        if pair.known {
          if pair.hops < minDistance { near := (i, j); }
          minDistance := Min(minDistance, pair.hops);
        }
        if !pair.separateRoots {
          minSeparate := 0;
          joined := (i, j);
        }
        forall x, y | PairSeen(a, x, y, least, flag)
          ensures PairSeen(a, x, y, minDistance, minSeparate) || (x == i && y == j) {}
        assert forall x, y | 0 <= y < x < i :: PairSeen(a, x, y, least, flag);
        assert forall y | 0 <= y < j :: PairSeen(a, i, y, least, flag);
      }
    }
    PairsSeen(a, paths, minDistance, minSeparate, near, joined);
    if minDistance == MAX_INT {
      minDistance := 0;
    }
  }

  lemma EntryIsPair(a: TopologyAllocator, paths: seq<Path>, i: nat, j: nat)
    requires a.Topology(paths) && i < |a.devices| && j < |a.devices|
    ensures i < |a.pairs| && j < |a.pairs[i]| && a.Attr().pair(i, j) == a.pairs[i][j] && 0 <= a.pairs[i][j].hops
  {
    PairKinds(a, paths, i, j);
  }

  ghost predicate PairSeen(a: TopologyAllocator, x: int, y: int, minDistance: int, minSeparate: int) {
    var pair := a.Attr().pair(x, y);
    (pair.known ==> minDistance <= pair.hops) && (minSeparate == 1 ==> pair.separateRoots)
  }

  /** The extremes so far are those of actual pairs. */
  ghost predicate Extremes(a: TopologyAllocator, minDistance: int, minSeparate: int, near: (int, int),
                           joined: (int, int)) {
    && 0 <= minDistance <= MAX_INT && (minSeparate == 0 || minSeparate == 1)
    && (minDistance < MAX_INT ==> 0 <= near.1 < near.0 < |a.devices| && ConnectedAt(a, near.0, near.1, minDistance))
    && (minSeparate == 0 ==>
          0 <= joined.1 < joined.0 < |a.devices| && !a.Attr().pair(joined.0, joined.1).separateRoots)
  }

  lemma PairsSeen(a: TopologyAllocator, paths: seq<Path>, minDistance: int, minSeparate: int, near: (int, int),
                  joined: (int, int))
    requires a.Topology(paths) && Extremes(a, minDistance, minSeparate, near, joined)
    requires forall x, y | 0 <= y < x < |a.devices| :: PairSeen(a, x, y, minDistance, minSeparate)
    ensures LeastDistance(a, if minDistance == MAX_INT then 0 else minDistance)
    ensures minSeparate == if AllSeparate(a) then 1 else 0
  {
    hide TopologyAllocator.Attr, NodeDistance;
    forall x, y | 0 <= x < |a.devices| && 0 <= y < |a.devices| && x != y
      ensures PairSeen(a, x, y, minDistance, minSeparate) && 0 <= a.Attr().pair(x, y).hops
    {
      PairOrder(a, paths, x, y);
      assert PairSeen(a, Max(x, y), Min(x, y), minDistance, minSeparate);
    }
  }

  lemma PairOrder(a: TopologyAllocator, paths: seq<Path>, x: nat, y: nat)
    requires a.Topology(paths) && x < |a.devices| && y < |a.devices|
    ensures a.Attr().pair(x, y) == a.Attr().pair(y, x) && 0 <= a.Attr().pair(x, y).hops
  {
    PairKinds(a, paths, x, y);
    PairKinds(a, paths, y, x);
  }
}
