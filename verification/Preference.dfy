/**
 SelectDevices and selectPreferredDeviceIDs (topology_allocator.go:43-75, 127-152, 322-350;
 plugin.go:394-411): which requests are refused, and that an accepted request gets the best set of
 devices, the first in ID order among equals.
 */
module Preference {
  import opened Ordering
  import opened Sums
  import opened Pairs
  import opened PCITopology
  import opened Placement
  import opened Score
  import opened Allocator
  import opened Bounds
  import opened Exhaustive
  import opened Lists

  // ----- what is asked for -----

  /** A sorted list of n of the given devices that includes the mandatory ones. */
  ghost predicate Eligible(ts: seq<int>, devices: map<int, NPUDevice>, must: seq<int>, n: int) {
    && Ascending(ts) && |ts| == n
    && (forall i | 0 <= i < |ts| :: ts[i] in devices)
    && Within(must, ts)
  }

  ghost function DeviceScore(xs: seq<int>, devices: map<int, NPUDevice>): AllocationScore {
    ScoreOf(xs, DeviceAttributes(devices))
  }

  /** The list rs is eligible, no eligible list scores better, and none of the same score comes
      before it in lexicographic ID order. */
  ghost predicate BestEligible(rs: seq<int>, devices: map<int, NPUDevice>, must: seq<int>, n: int) {
    && Eligible(rs, devices, must, n)
    && forall ts | Eligible(ts, devices, must, n) ::
         AtLeastAsGood(DeviceScore(rs, devices), DeviceScore(ts, devices)) &&
         (DeviceScore(ts, devices) == DeviceScore(rs, devices) ==> Compare(rs, ts) <= 0)
  }

  /** The answer: the mandatory devices as first named, then the others in ID order, together the
      best eligible set. */
  ghost predicate Preferred(result: seq<int>, devices: map<int, NPUDevice>, must: seq<int>, n: int) {
    && Distinct(result)
    && (exists extras :: Ascending(extras) && result == FirstOccurrences(must) + extras)
    && BestEligible(Sorted(result), devices, must, n)
  }

  // ----- indices and IDs -----

  ghost function IndexOf(a: TopologyAllocator): int -> int {
    id => if id in a.byID then a.byID[id] else -1
  }

  lemma IndexRoundTrip(a: TopologyAllocator, paths: seq<Path>, devices: map<int, NPUDevice>, id: int)
    requires AllocatorOf(a, paths, devices) && id in devices
    ensures 0 <= IndexOf(a)(id) < |a.devices| && a.IDs()(IndexOf(a)(id)) == id
  {}

  lemma IDRoundTrip(a: TopologyAllocator, paths: seq<Path>, devices: map<int, NPUDevice>, i: nat)
    requires AllocatorOf(a, paths, devices) && i < |a.devices|
    ensures a.IDs()(i) in devices && IndexOf(a)(a.IDs()(i)) == i
  {}

  lemma IDsIncrease(a: TopologyAllocator, paths: seq<Path>, devices: map<int, NPUDevice>, i: nat, j: nat)
    requires AllocatorOf(a, paths, devices) && i < |a.devices| && j < |a.devices|
    ensures i < j <==> a.IDs()(i) < a.IDs()(j)
    ensures i == j <==> a.IDs()(i) == a.IDs()(j)
  {}

  /** The indices of an ascending list of IDs ascend. */
  lemma IndicesOfIDs(a: TopologyAllocator, paths: seq<Path>, devices: map<int, NPUDevice>, ts: seq<int>)
    requires AllocatorOf(a, paths, devices)
    requires forall i | 0 <= i < |ts| :: ts[i] in devices
    ensures Indices(a, Renamed(ts, IndexOf(a))) && Renamed(Renamed(ts, IndexOf(a)), a.IDs()) == ts
    ensures Ascending(ts) ==> Ascending(Renamed(ts, IndexOf(a)))
    ensures Distinct(ts) ==> Distinct(Renamed(ts, IndexOf(a)))
  {
    hide AllocatorOf;
    forall i | 0 <= i < |ts| ensures 0 <= IndexOf(a)(ts[i]) < |a.devices| && a.IDs()(IndexOf(a)(ts[i])) == ts[i] {
      IndexRoundTrip(a, paths, devices, ts[i]);
    }
    forall i, j | 0 <= i < |ts| && 0 <= j < |ts|
      ensures IndexOf(a)(ts[i]) < IndexOf(a)(ts[j]) <==> ts[i] < ts[j]
      ensures IndexOf(a)(ts[i]) == IndexOf(a)(ts[j]) <==> ts[i] == ts[j]
    {
      IDsIncrease(a, paths, devices, IndexOf(a)(ts[i]), IndexOf(a)(ts[j]));
    }
  }

  /** The IDs of ascending indices ascend. */
  lemma IDsOfIndices(a: TopologyAllocator, paths: seq<Path>, devices: map<int, NPUDevice>, xs: seq<int>)
    requires AllocatorOf(a, paths, devices) && Indices(a, xs)
    ensures forall i | 0 <= i < |xs| :: Renamed(xs, a.IDs())[i] in devices
    ensures Ascending(xs) ==> Ascending(Renamed(xs, a.IDs()))
    ensures Distinct(xs) ==> Distinct(Renamed(xs, a.IDs()))
    ensures Renamed(Renamed(xs, a.IDs()), IndexOf(a)) == xs
  {
    hide AllocatorOf, IndexOf;
    forall i | 0 <= i < |xs| ensures a.IDs()(xs[i]) in devices && IndexOf(a)(a.IDs()(xs[i])) == xs[i] {
      IDRoundTrip(a, paths, devices, xs[i]);
    }
    forall i, j | 0 <= i < |xs| && 0 <= j < |xs|
      ensures a.IDs()(xs[i]) < a.IDs()(xs[j]) <==> xs[i] < xs[j]
      ensures a.IDs()(xs[i]) == a.IDs()(xs[j]) <==> xs[i] == xs[j]
    {
      IDsIncrease(a, paths, devices, xs[i], xs[j]);
    }
  }

  /** The candidates are the indices that are not mandatory. */
  ghost predicate CandidatesOf(a: TopologyAllocator, ms: seq<int>, candidates: seq<int>) {
    && Ascending(candidates) && Indices(a, candidates)
    && forall i | 0 <= i < |a.devices| :: i in candidates <==> i !in ms
  }

  ghost function NotIn(ms: seq<int>): int -> bool { x => x !in ms }

  /** The devices an eligible list adds to the mandatory ones, as a completion. */
  lemma ExtrasOf(a: TopologyAllocator, paths: seq<Path>, devices: map<int, NPUDevice>, must: seq<int>, n: int,
                 ms: seq<int>, candidates: seq<int>, ts: seq<int>) returns (es: seq<int>)
    requires AllocatorOf(a, paths, devices) && Indices(a, ms) && Distinct(ms)
    requires Renamed(ms, a.IDs()) == FirstOccurrences(must)
    requires CandidatesOf(a, ms, candidates)
    requires Eligible(ts, devices, must, n)
    ensures SubList(es, candidates) && |es| == n - |ms|
    ensures Rearranged(ms + es, Renamed(ts, IndexOf(a))) && Distinct(ms + es)
    ensures Distinct(Renamed(ts, IndexOf(a))) && Indices(a, Renamed(ts, IndexOf(a)))
  {
    hide Filter, FirstOccurrences;
    var ix := Renamed(ts, IndexOf(a));
    IndicesOfIDs(a, paths, devices, ts);
    AscendingDistinct(ix);
    es := Filter(ix, NotIn(ms));
    FilterFacts(ix, NotIn(ms));
    forall i | 0 <= i < |es| ensures es[i] in candidates && es[i] !in ms {
      var e := es[i];
      assert NotIn(ms)(e);
      assert e in ix;
      var k :| 0 <= k < |ix| && ix[k] == e;
    }
    MandatoryWithin(a, paths, devices, must, ms, ts);
    var all := ms + es;
    forall i | 0 <= i < |all| ensures all[i] in ix {
      if i < |ms| { assert ms[i] in ix; } else { assert es[i - |ms|] in ix; }
    }
    forall i | 0 <= i < |ix| ensures ix[i] in all {
      if ix[i] !in ms {
        assert NotIn(ms)(ix[i]);
        assert ix[i] in es;
      }
    }
    SameElementsRearranged(all, ix);
    assert |multiset(all)| == |multiset(ix)|;
  }

  lemma MandatoryWithin(a: TopologyAllocator, paths: seq<Path>, devices: map<int, NPUDevice>, must: seq<int>,
                        ms: seq<int>, ts: seq<int>)
    requires AllocatorOf(a, paths, devices) && Indices(a, ms) && Renamed(ms, a.IDs()) == FirstOccurrences(must)
    requires Within(must, ts)
    ensures Within(ms, Renamed(ts, IndexOf(a)))
  {
    FirstOccurrencesFacts(must);
    forall i | 0 <= i < |ms| ensures ms[i] in Renamed(ts, IndexOf(a)) {
      IDRoundTrip(a, paths, devices, ms[i]);
      assert Renamed(ms, a.IDs())[i] in must;
      var j :| 0 <= j < |must| && must[j] == Renamed(ms, a.IDs())[i];
      assert must[j] in ts;
      var k :| 0 <= k < |ts| && ts[k] == must[j];
      assert Renamed(ts, IndexOf(a))[k] == ms[i];
    }
  }

  /** The score of an eligible list is that of its indices in any order. */
  lemma ScoreOfEligible(a: TopologyAllocator, paths: seq<Path>, devices: map<int, NPUDevice>, xs: seq<int>,
                        ts: seq<int>)
    requires AllocatorOf(a, paths, devices) && Indices(a, xs) && Distinct(xs)
    requires Ascending(ts) && forall i | 0 <= i < |ts| :: ts[i] in devices
    requires Rearranged(xs, Renamed(ts, IndexOf(a)))
    ensures ScoreAt(a, xs) == DeviceScore(ts, devices)
  {
    hide ScoreOf;
    var ix := Renamed(ts, IndexOf(a));
    IndicesOfIDs(a, paths, devices, ts);
    AscendingDistinct(ts);
    IDsOfIndices(a, paths, devices, xs);
    AllocatorScoresDevices(a, paths, devices, xs);
    RenamedRearranged(a, paths, devices, xs, ix);
    DevicePairsSymmetric(devices);
    ScoreIsOrderFree(Renamed(xs, a.IDs()), ts, DeviceAttributes(devices));
  }

  lemma RenamedRearranged(a: TopologyAllocator, paths: seq<Path>, devices: map<int, NPUDevice>, xs: seq<int>,
                          ys: seq<int>)
    requires AllocatorOf(a, paths, devices) && Indices(a, xs) && Indices(a, ys)
    requires Distinct(xs) && Distinct(ys) && Rearranged(xs, ys)
    ensures Rearranged(Renamed(xs, a.IDs()), Renamed(ys, a.IDs()))
  {
    IDsOfIndices(a, paths, devices, xs);
    IDsOfIndices(a, paths, devices, ys);
    RearrangedWithin(xs, ys);
    RearrangedWithin(ys, xs);
    WithinRenamed(xs, ys, a.IDs());
    WithinRenamed(ys, xs, a.IDs());
    SameElementsRearranged(Renamed(xs, a.IDs()), Renamed(ys, a.IDs()));
  }

  lemma WithinRenamed(xs: seq<int>, ys: seq<int>, name: int -> int)
    requires Within(xs, ys)
    ensures Within(Renamed(xs, name), Renamed(ys, name))
  {
    forall i | 0 <= i < |xs| ensures Renamed(xs, name)[i] in Renamed(ys, name) {
      assert xs[i] in ys;
      var j :| 0 <= j < |ys| && ys[j] == xs[i];
      assert Renamed(ys, name)[j] == Renamed(xs, name)[i];
    }
  }

  /** The elements of the answer are the mandatory devices and the added ones. */
  lemma AnswerElements(a: TopologyAllocator, ms: seq<int>, es: seq<int>, z: int)
    ensures z in Renamed(ms + es, a.IDs()) <==> z in Renamed(ms, a.IDs()) || z in Renamed(es, a.IDs())
  {
    assert Renamed(ms + es, a.IDs()) == Renamed(ms, a.IDs()) + Renamed(es, a.IDs());
  }

  /** A duplicate-free list of n devices that includes the mandatory ones is eligible once sorted. */
  lemma SortedEligible(result: seq<int>, devices: map<int, NPUDevice>, must: seq<int>, n: int)
    requires Distinct(result) && |result| == n && Within(must, result)
    requires forall i | 0 <= i < |result| :: result[i] in devices
    ensures Eligible(Sorted(result), devices, must, n)
  {
    hide Sorted;
    SortedFacts(result);
    var sorted := Sorted(result);
    forall i | 0 <= i < |sorted| ensures sorted[i] in devices {
      assert sorted[i] in result;
      var j :| 0 <= j < |result| && result[j] == sorted[i];
    }
    forall i | 0 <= i < |must| ensures must[i] in sorted {
      assert must[i] in result;
      SameMembers(result, sorted, must[i]);
    }
  }

  lemma AnswerIncludes(a: TopologyAllocator, must: seq<int>, ms: seq<int>, ws: seq<int>)
    requires Renamed(ms, a.IDs()) == FirstOccurrences(must)
    ensures Within(must, Renamed(ms + ws, a.IDs()))
  {
    hide FirstOccurrences;
    FirstOccurrencesFacts(must);
    forall i | 0 <= i < |must| ensures must[i] in Renamed(ms + ws, a.IDs()) {
      assert must[i] in FirstOccurrences(must);
      AnswerElements(a, ms, ws, must[i]);
    }
  }

  /** A completion's IDs, sorted, are an eligible list with the completion's score. */
  lemma CompletionEligible(a: TopologyAllocator, paths: seq<Path>, devices: map<int, NPUDevice>, must: seq<int>, n: int,
                           ms: seq<int>, ws: seq<int>)
    requires AllocatorOf(a, paths, devices) && Indices(a, ms + ws) && Distinct(ms + ws)
    requires Renamed(ms, a.IDs()) == FirstOccurrences(must) && |ms + ws| == n
    ensures var result := Renamed(ms + ws, a.IDs());
            Distinct(result) && Eligible(Sorted(result), devices, must, n) &&
            DeviceScore(Sorted(result), devices) == ScoreAt(a, ms + ws)
  {
    hide ScoreOf, Sorted, FirstOccurrences;
    var result := Renamed(ms + ws, a.IDs());
    IDsOfIndices(a, paths, devices, ms + ws);
    AnswerIncludes(a, must, ms, ws);
    SortedEligible(result, devices, must, n);
    SortedScore(a, paths, devices, ms + ws);
  }

  lemma SortedScore(a: TopologyAllocator, paths: seq<Path>, devices: map<int, NPUDevice>, xs: seq<int>)
    requires AllocatorOf(a, paths, devices) && Indices(a, xs) && Distinct(xs)
    ensures DeviceScore(Sorted(Renamed(xs, a.IDs())), devices) == ScoreAt(a, xs)
  {
    hide ScoreOf, Sorted;
    var result := Renamed(xs, a.IDs());
    var sorted := Sorted(result);
    IDsOfIndices(a, paths, devices, xs);
    SortedFacts(result);
    forall i | 0 <= i < |sorted| ensures sorted[i] in devices {
      assert sorted[i] in result;
      var j :| 0 <= j < |result| && result[j] == sorted[i];
    }
    IndicesOfIDs(a, paths, devices, sorted);
    WithinRenamed(result, sorted, IndexOf(a));
    WithinRenamed(sorted, result, IndexOf(a));
    AscendingDistinct(sorted);
    SameElementsRearranged(xs, Renamed(sorted, IndexOf(a)));
    ScoreOfEligible(a, paths, devices, xs, sorted);
  }

  /** Completions compare as the sorted lists of all their IDs do. */
  lemma OrderOfAnswers(a: TopologyAllocator, paths: seq<Path>, devices: map<int, NPUDevice>, ms: seq<int>, ws: seq<int>,
                       es: seq<int>, rs: seq<int>, ts: seq<int>)
    requires AllocatorOf(a, paths, devices)
    requires Indices(a, ms + ws) && Distinct(ms + ws) && Indices(a, ms + es) && Distinct(ms + es)
    requires Ascending(ws) && Ascending(es) && |ws| == |es| && Compare(ws, es) <= 0
    requires Ascending(rs) && Ascending(ts) && |rs| == |ts|
    requires Within(rs, Renamed(ms + ws, a.IDs())) && Within(Renamed(ms + ws, a.IDs()), rs)
    requires Within(ts, Renamed(ms + es, a.IDs())) && Within(Renamed(ms + es, a.IDs()), ts)
    ensures Compare(rs, ts) <= 0
  {
    SplitIndices(a, ms, ws);
    SplitIndices(a, ms, es);
    forall i, j | 0 <= i < |ws| && 0 <= j < |es|
      ensures ws[i] < es[j] <==> a.IDs()(ws[i]) < a.IDs()(es[j])
      ensures ws[i] == es[j] <==> a.IDs()(ws[i]) == a.IDs()(es[j])
    {
      IDsIncrease(a, paths, devices, ws[i], es[j]);
    }
    CompareRenamed(ws, es, a.IDs());
    IDsOfIndices(a, paths, devices, ws);
    IDsOfIndices(a, paths, devices, es);
    var common, xs, ys := Renamed(ms, a.IDs()), Renamed(ws, a.IDs()), Renamed(es, a.IDs());
    forall z ensures (z in rs <==> z in common || z in xs) && (z in ts <==> z in common || z in ys) {
      AnswerElements(a, ms, ws, z);
      AnswerElements(a, ms, es, z);
      SameMembers(rs, Renamed(ms + ws, a.IDs()), z);
      SameMembers(ts, Renamed(ms + es, a.IDs()), z);
    }
    forall z | z in common ensures z !in xs && z !in ys {
      NotAdded(a, paths, devices, ms, ws, z);
      NotAdded(a, paths, devices, ms, es, z);
    }
    CommonElementsKeepOrder(xs, ys, common, rs, ts);
  }

  lemma SplitIndices(a: TopologyAllocator, ms: seq<int>, ws: seq<int>)
    requires Indices(a, ms + ws)
    ensures Indices(a, ms) && Indices(a, ws)
  {
    forall i | 0 <= i < |ms| ensures 0 <= ms[i] < |a.devices| { assert (ms + ws)[i] == ms[i]; }
    forall i | 0 <= i < |ws| ensures 0 <= ws[i] < |a.devices| { assert (ms + ws)[|ms| + i] == ws[i]; }
  }

  lemma SameMembers(xs: seq<int>, ys: seq<int>, z: int)
    requires Within(xs, ys) && Within(ys, xs)
    ensures z in xs <==> z in ys
  {}

  lemma NotAdded(a: TopologyAllocator, paths: seq<Path>, devices: map<int, NPUDevice>, ms: seq<int>, ws: seq<int>,
                 z: int)
    requires AllocatorOf(a, paths, devices) && Indices(a, ms + ws) && Distinct(ms + ws)
    requires z in Renamed(ms, a.IDs())
    ensures z !in Renamed(ws, a.IDs())
  {
    var i :| 0 <= i < |ms| && Renamed(ms, a.IDs())[i] == z;
    forall j | 0 <= j < |ws| ensures Renamed(ws, a.IDs())[j] != z {
      assert (ms + ws)[i] != (ms + ws)[|ms| + j];
      IDsIncrease(a, paths, devices, (ms + ws)[i], (ms + ws)[|ms| + j]);
    }
  }

  /** What the search finds is the preferred answer. */
  lemma FoundIsPreferred(a: TopologyAllocator, paths: seq<Path>, devices: map<int, NPUDevice>, must: seq<int>, n: int,
                         ms: seq<int>, candidates: seq<int>, ws: seq<int>)
    requires AllocatorOf(a, paths, devices) && Indices(a, ms) && Distinct(ms) && |ms| <= n
    requires Renamed(ms, a.IDs()) == FirstOccurrences(must)
    requires CandidatesOf(a, ms, candidates)
    requires From(candidates, 0, n - |ms|, ws) && FirstAmong(a, candidates, ms, 0, n - |ms|, ws)
    requires forall es | From(candidates, 0, n - |ms|, es) :: AtLeastAsGood(ScoreAt(a, ms + ws), ScoreAt(a, ms + es))
    ensures Preferred(Renamed(ms + ws, a.IDs()), devices, must, n)
  {
    hide ScoreOf, ScoreAt, DeviceScore, Sorted, FirstOccurrences, FirstAmong, AllocatorOf, CandidatesOf, Compare,
      Eligible, AtLeastAsGood;
    assert candidates[0..] == candidates;
    CompletionApart(a, ms, candidates, ws);
    CompletionEligible(a, paths, devices, must, n, ms, ws);
    var result := Renamed(ms + ws, a.IDs());
    var rs := Sorted(result);
    SortedFacts(result);
    forall ts | Eligible(ts, devices, must, n)
      ensures AtLeastAsGood(DeviceScore(rs, devices), DeviceScore(ts, devices))
      ensures DeviceScore(ts, devices) == DeviceScore(rs, devices) ==> Compare(rs, ts) <= 0
    {
      BeatsEligible(a, paths, devices, must, n, ms, candidates, ws, rs, ts);
    }
    SplitIndices(a, ms, ws);
    IDsOfIndices(a, paths, devices, ws);
    assert result == FirstOccurrences(must) + Renamed(ws, a.IDs());
  }

  lemma BeatsEligible(a: TopologyAllocator, paths: seq<Path>, devices: map<int, NPUDevice>, must: seq<int>, n: int,
                      ms: seq<int>, candidates: seq<int>, ws: seq<int>, rs: seq<int>, ts: seq<int>)
    requires AllocatorOf(a, paths, devices) && Indices(a, ms) && Distinct(ms) && |ms| <= n
    requires Renamed(ms, a.IDs()) == FirstOccurrences(must)
    requires CandidatesOf(a, ms, candidates)
    requires From(candidates, 0, n - |ms|, ws) && FirstAmong(a, candidates, ms, 0, n - |ms|, ws)
    requires forall es | From(candidates, 0, n - |ms|, es) :: AtLeastAsGood(ScoreAt(a, ms + ws), ScoreAt(a, ms + es))
    requires Indices(a, ms + ws) && Distinct(ms + ws) && DeviceScore(rs, devices) == ScoreAt(a, ms + ws)
    requires Ascending(rs) && |rs| == n && Within(rs, Renamed(ms + ws, a.IDs())) &&
             Within(Renamed(ms + ws, a.IDs()), rs)
    requires Eligible(ts, devices, must, n)
    ensures AtLeastAsGood(DeviceScore(rs, devices), DeviceScore(ts, devices))
    ensures DeviceScore(ts, devices) == DeviceScore(rs, devices) ==> Compare(rs, ts) <= 0
  {
    hide ScoreOf, ScoreAt, DeviceScore;
    var es := ExtrasOf(a, paths, devices, must, n, ms, candidates, ts);
    assert candidates[0..] == candidates;
    assert From(candidates, 0, n - |ms|, es);
    CompletionApart(a, ms, candidates, es);
    ScoreOfEligible(a, paths, devices, ms + es, ts);
    if DeviceScore(ts, devices) == DeviceScore(rs, devices) {
      assert !Before(es, ws);
      CompareFacts(es, ws);
      IndicesOfIDs(a, paths, devices, ts);
      RearrangedWithin(ms + es, Renamed(ts, IndexOf(a)));
      RearrangedWithin(Renamed(ts, IndexOf(a)), ms + es);
      WithinRenamed(ms + es, Renamed(ts, IndexOf(a)), a.IDs());
      WithinRenamed(Renamed(ts, IndexOf(a)), ms + es, a.IDs());
      OrderOfAnswers(a, paths, devices, ms, ws, es, rs, ts);
    }
  }

  lemma CompletionApart(a: TopologyAllocator, ms: seq<int>, candidates: seq<int>, es: seq<int>)
    requires Indices(a, ms) && Distinct(ms) && CandidatesOf(a, ms, candidates) && SubList(es, candidates)
    ensures Indices(a, ms + es) && Distinct(ms + es)
  {}

  // ----- requests without a choice -----

  /** When only one set is eligible, listing it is the preferred answer. */
  lemma OnlyEligible(devices: map<int, NPUDevice>, must: seq<int>, n: int, extras: seq<int>)
    requires Ascending(extras) && Distinct(FirstOccurrences(must) + extras) && |FirstOccurrences(must) + extras| == n
    requires forall i | 0 <= i < |FirstOccurrences(must) + extras| :: (FirstOccurrences(must) + extras)[i] in devices
    requires forall ts | Eligible(ts, devices, must, n) :: Within(ts, FirstOccurrences(must) + extras)
    ensures Preferred(FirstOccurrences(must) + extras, devices, must, n)
  {
    hide DeviceScore, Sorted, FirstOccurrences;
    var result := FirstOccurrences(must) + extras;
    var rs := Sorted(result);
    SortedFacts(result);
    FirstOccurrencesFacts(must);
    forall i | 0 <= i < |must| ensures must[i] in result { assert must[i] in FirstOccurrences(must); }
    SortedEligible(result, devices, must, n);
    forall ts | Eligible(ts, devices, must, n) ensures ts == rs { OneSortedList(result, rs, ts); }
    CompareFacts(rs, rs);
  }

  lemma OneSortedList(result: seq<int>, rs: seq<int>, ts: seq<int>)
    requires Distinct(result) && Ascending(rs) && Within(rs, result) && Within(result, rs)
    requires Ascending(ts) && Within(ts, result) && |ts| == |result|
    ensures ts == rs
  {
    AscendingDistinct(ts);
    SameSizeSameElements(ts, result);
    forall i | 0 <= i < |ts| ensures ts[i] in rs { SameMembers(rs, result, ts[i]); }
    forall i | 0 <= i < |rs| ensures rs[i] in ts { SameMembers(ts, result, rs[i]); }
    AscendingUnique(ts, rs);
  }

  // ----- the answer does not depend on how the request is written -----

  lemma EligibleSameSets(devices: map<int, NPUDevice>, must: seq<int>, must': seq<int>, n: int, ts: seq<int>)
    requires Within(must, must') && Within(must', must)
    ensures Eligible(ts, devices, must, n) <==> Eligible(ts, devices, must', n)
  {}

  /** There is one best eligible list. */
  lemma BestEligibleUnique(devices: map<int, NPUDevice>, must: seq<int>, n: int, rs: seq<int>, ts: seq<int>)
    requires BestEligible(rs, devices, must, n) && BestEligible(ts, devices, must, n)
    ensures rs == ts
  {
    hide DeviceScore;
    CompareFacts(rs, ts);
  }

  /** Naming the mandatory devices in another order or more than once changes neither the selected
      set nor the added devices, only the order of the mandatory prefix. */
  lemma RepresentationIndependence(devices: map<int, NPUDevice>, must: seq<int>, must': seq<int>, n: int,
                                   result: seq<int>, result': seq<int>)
    requires Within(must, must') && Within(must', must)
    requires Preferred(result, devices, must, n) && Preferred(result', devices, must', n)
    ensures Sorted(result) == Sorted(result')
    ensures exists extras ::
            Ascending(extras) && result == FirstOccurrences(must) + extras &&
              result' == FirstOccurrences(must') + extras
  {
    hide DeviceScore;
    forall ts { EligibleSameSets(devices, must, must', n, ts); }
    BestEligibleUnique(devices, must, n, Sorted(result), Sorted(result'));
    var xs :| Ascending(xs) && result == FirstOccurrences(must) + xs;
    var ys :| Ascending(ys) && result' == FirstOccurrences(must') + ys;
    SameExtras(must, must', result, result', xs, ys);
    SameExtras(must', must, result', result, ys, xs);
    AscendingUnique(xs, ys);
  }

  lemma SameExtras(must: seq<int>, must': seq<int>, result: seq<int>, result': seq<int>, xs: seq<int>, ys: seq<int>)
    requires Within(must, must') && Within(must', must)
    requires Distinct(result) && Distinct(result') && Sorted(result) == Sorted(result')
    requires result == FirstOccurrences(must) + xs && result' == FirstOccurrences(must') + ys
    ensures Within(xs, ys)
  {
    hide Sorted, FirstOccurrences;
    SortedFacts(result);
    SortedFacts(result');
    FirstOccurrencesFacts(must);
    FirstOccurrencesFacts(must');
    var ms, ms' := FirstOccurrences(must), FirstOccurrences(must');
    forall i | 0 <= i < |xs| ensures xs[i] in ys {
      var x := xs[i];
      assert result[|ms| + i] == x;
      forall k | 0 <= k < |ms| ensures ms[k] != x { assert result[k] != result[|ms| + i]; }
      assert x !in ms;
      SameMembers(result, Sorted(result), x);
      SameMembers(result', Sorted(result'), x);
      assert x in result';
      if x in ms' {
        SameMembers(ms', must', x);
        SameMembers(must, must', x);
        SameMembers(ms, must, x);
        assert false;
      }
    }
  }

  /** A request has one preferred answer. */
  lemma PreferredIsUnique(devices: map<int, NPUDevice>, must: seq<int>, n: int, result: seq<int>, result': seq<int>)
    requires Preferred(result, devices, must, n) && Preferred(result', devices, must, n)
    ensures result == result'
  {
    hide BestEligible;
    forall i | 0 <= i < |must| ensures must[i] in must {}
    RepresentationIndependence(devices, must, must, n, result, result');
  }

  // ----- no metadata at all -----

  ghost predicate NoMetadata(devices: map<int, NPUDevice>) {
    forall id | id in devices :: devices[id] == NPUDevice(None, None, None, None)
  }

  lemma NewSingle(devices: map<int, NPUDevice>, init: seq<int>, z: int)
    requires NoMetadata(devices) && forall i | 0 <= i < |init| :: init[i] != z
    ensures var b := DeviceAttributes(devices); b.group(z) !in Labels(init, b.Present(), b.group)
  {
    var b := DeviceAttributes(devices);
    forall i | 0 <= i < |init| ensures b.group(init[i]) != b.group(z) { assert init[i] != z; }
  }

  lemma NoCards(devices: map<int, NPUDevice>)
    ensures var b := DeviceAttributes(devices); Labels([], b.Present(), b.group) == {}
  {}

  lemma {:induction false} SingleCards(devices: map<int, NPUDevice>, xs: seq<int>)
    requires NoMetadata(devices) && Distinct(xs)
    ensures var b := DeviceAttributes(devices); |Labels(xs, b.Present(), b.group)| == |xs|
  {
    hide Labels, DeviceAttributes, NoMetadata;
    var b := DeviceAttributes(devices);
    if |xs| == 0 {
      NoCards(devices);
    } else {
      var init, z := xs[..|xs| - 1], xs[|xs| - 1];
      SingleCards(devices, init);
      LabelsStep(xs, b.Present(), b.group);
      NewSingle(devices, init, z);
    }
  }

  lemma {:induction false} NoDistances(xs: seq<int>, w: (int, int) -> int)
    requires forall x, y :: w(x, y) == 0
    ensures PairSum(xs, w) == 0 && PairMax(xs, w) == 0
  {
    PairMaxSpec(xs, w);
    if |xs| > 0 {
      NoDistances(xs[..|xs| - 1], w);
      TotalZero(xs[..|xs| - 1], y => w(xs[|xs| - 1], y));
      PairStep(xs, w);
    }
  }

  lemma NumberUnknown(devices: map<int, NPUDevice>, id: int)
    requires NoMetadata(devices)
    ensures DeviceAttributes(devices).numa(id) == -1
  {}

  lemma NothingKnownScore(devices: map<int, NPUDevice>, xs: seq<int>)
    requires NoMetadata(devices) && Distinct(xs)
    ensures DeviceScore(xs, devices) == AllocationScore(|xs|, 0, |xs|, |xs|, 0, 0, 0)
  {
    hide Count, PairSum, PairMax;
    var b := DeviceAttributes(devices);
    AllCounted(xs);
    forall i | 0 <= i < |xs| ensures b.UnknownNUMA()(xs[i]) == Anything()(xs[i]) {
      NumberUnknown(devices, xs[i]);
    }
    CountExt(xs, b.UnknownNUMA(), Anything());
    CountExt(xs, b.UnknownPCI(), Anything());
    forall i | 0 <= i < |xs| ensures !b.KnownNUMA()(xs[i]) { NumberUnknown(devices, xs[i]); }
    assert Labels(xs, b.KnownNUMA(), b.numa) == {};
    SingleCards(devices, xs);
    NoDistances(xs, b.Separate());
    NoDistances(xs, b.Hops());
  }

  /** Without any metadata the answer is the first eligible set in ID order. */
  lemma DeterministicFallback(devices: map<int, NPUDevice>, must: seq<int>, n: int, result: seq<int>)
    requires NoMetadata(devices) && Preferred(result, devices, must, n)
    ensures forall ts | Eligible(ts, devices, must, n) :: Compare(Sorted(result), ts) <= 0
  {
    hide DeviceScore, Sorted;
    forall ts | Eligible(ts, devices, must, n) ensures Compare(Sorted(result), ts) <= 0 {
      AscendingDistinct(ts);
      AscendingDistinct(Sorted(result));
      NothingKnownScore(devices, ts);
      NothingKnownScore(devices, Sorted(result));
    }
  }
}
