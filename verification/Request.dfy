/**
 The request path: availableDevices (plugin.go:394-411), validateMustInclude,
 normalizeMustInclude, SelectDevices and selectPreferredDeviceIDs
 (topology_allocator.go:43-75, 127-152, 322-350).
 */
module Request {
  import opened Ordering
  import opened Pairs
  import opened PCITopology
  import opened Machine
  import opened Score
  import opened Allocator
  import opened Bounds
  import opened Exhaustive
  import opened Tally
  import opened Search
  import opened Lists
  import opened Preference

  datatype RequestError =
    | NegativeSize
    | Unmanaged(id: int)
    | TooFewAvailable(requested: int, available: int)
    | UnknownMandatory(id: int)
    | TooManyMandatory(mandatory: int, size: int)
    | WrongCount(selected: int, requested: int)

  datatype Result<+T> = Ok(value: T) | Err(error: RequestError)

  // ----- the mandatory devices -----

  /** normalizeMustInclude: the distinct IDs in the order of first mention, and their set. */
  method NormalizeMustInclude(must: seq<int>) returns (selected: seq<int>, excluded: set<int>)
    ensures selected == FirstOccurrences(must)
    ensures excluded == Elements(selected)
  {
    selected, excluded := [], {};
    for k := 0 to |must|
      invariant selected == FirstOccurrences(must[..k])
      invariant excluded == Elements(selected)
    {
      assert must[..k + 1][..k] == must[..k];
      ElementsOf(selected, must[k]);
      if must[k] !in excluded {
        ElementsAdd(selected, must[k]);
        excluded := excluded + {must[k]};
        selected := selected + [must[k]];
      }
    }
    assert must[..|must|] == must;
  }

  lemma ElementsAdd(xs: seq<int>, x: int)
    ensures Elements(xs + [x]) == Elements(xs) + {x}
  {
    forall y ensures y in Elements(xs + [x]) <==> y in Elements(xs) + {x} {
      ElementsOf(xs + [x], y);
      ElementsOf(xs, y);
    }
  }

  ghost predicate AllIn(xs: seq<int>, devices: map<int, NPUDevice>) {
    forall i | 0 <= i < |xs| :: xs[i] in devices
  }

  /** validateMustInclude: the error for the first unknown ID, else for too many distinct ones. */
  method ValidateMustInclude(devices: map<int, NPUDevice>, must: seq<int>, size: int) returns (r: Option<RequestError>)
    ensures r.None? <==> AllIn(must, devices) && |FirstOccurrences(must)| <= size
    ensures r.Some? && r.value.UnknownMandatory? ==>
              exists k :: 0 <= k < |must| && must[k] == r.value.id && must[k] !in devices && AllIn(must[..k], devices)
    ensures r.Some? && !r.value.UnknownMandatory? ==>
              AllIn(must, devices) && r.value == TooManyMandatory(|FirstOccurrences(must)|, size)
  {
    var seen: set<int> := {};
    FirstOccurrencesFacts(must);
    for k := 0 to |must|
      invariant AllIn(must[..k], devices)
      invariant seen == Elements(FirstOccurrences(must[..k]))
    {
      assert must[..k + 1][..k] == must[..k];
      ElementsOf(FirstOccurrences(must[..k]), must[k]);
      FirstOccurrencesFacts(must[..k]);
      if must[k] !in seen {
        if must[k] !in devices {
          return Some(UnknownMandatory(must[k]));
        }
        ElementsAdd(FirstOccurrences(must[..k]), must[k]);
        seen := seen + {must[k]};
      } else {
        SeenBefore(must[..k], must[k], devices);
      }
      assert AllIn(must[..k + 1], devices);
    }
    assert must[..|must|] == must;
    DistinctSize(FirstOccurrences(must));
    if |seen| > size {
      return Some(TooManyMandatory(|seen|, size));
    }
    return None;
  }

  lemma SeenBefore(xs: seq<int>, x: int, devices: map<int, NPUDevice>)
    requires AllIn(xs, devices) && x in FirstOccurrences(xs)
    ensures x in devices
  {}

  // ----- the available devices -----

  ghost predicate Offers(devices: map<int, NPUDevice>, managed: map<int, NPUDevice>, available: seq<int>) {
    && (forall id :: id in devices <==> id in available)
    && (forall id | id in devices :: id in managed && devices[id] == managed[id])
  }

  /** availableDevices: the managed devices with the given IDs, duplicates ignored. */
  method AvailableDevices(managed: map<int, NPUDevice>, available: seq<int>) returns (r: Result<map<int, NPUDevice>>)
    ensures r.Ok? <==> AllIn(available, managed)
    ensures r.Ok? ==> Offers(r.value, managed, available)
    ensures r.Err? ==> exists k ::
            0 <= k < |available| && r.error == Unmanaged(available[k]) && available[k] !in managed &&
              AllIn(available[..k], managed)
  {
    var devices: map<int, NPUDevice> := map[];
    for k := 0 to |available|
      invariant AllIn(available[..k], managed)
      invariant Offers(devices, managed, available[..k])
    {
      var id := available[k];
      assert available[..k + 1] == available[..k] + [id];
      if id !in devices {
        if id !in managed {
          return Err(Unmanaged(id));
        }
        devices := devices[id := managed[id]];
      } else {
        assert devices[id] == managed[id];
      }
    }
    assert available[..|available|] == available;
    return Ok(devices);
  }

  // ----- SelectDevices -----

  /** The mandatory IDs translated to indices, added to the search one by one. */
  method AddMandatory(s: AllocationSearch, selected: seq<int>, ghost devices: map<int, NPUDevice>)
    requires s.Valid() && AllocatorOf(s.allocator, s.paths, devices) && s.chosen == []
    requires Distinct(selected) && AllIn(selected, devices)
    modifies s, s.sidCounts, s.numaCounts
    ensures s.Valid() && s.chosen == Renamed(selected, IndexOf(s.allocator))
    ensures s.best == old(s.best) && s.candidates == old(s.candidates)
  {
    hide Tallies, AllocatorOf, IndexOf, ScoreAt, TopologyAllocator.Topology, AddedCounts;
    ghost var a, paths, indices := s.allocator, s.paths, Renamed(selected, IndexOf(s.allocator));
    IndicesOfIDs(a, paths, devices, selected);
    for k := 0 to |selected|
      invariant s.Valid() && s.chosen == indices[..k]
      invariant s.best == old(s.best) && s.candidates == old(s.candidates)
    {
      InByID(a, paths, devices, selected[k]);
      var index := s.allocator.byID[selected[k]];
      assert index == indices[k];
      s.Add(index);
      assert indices[..k + 1] == indices[..k] + [indices[k]];
    }
    assert indices[..|selected|] == indices;
  }

  lemma InByID(a: TopologyAllocator, paths: seq<Path>, devices: map<int, NPUDevice>, id: int)
    requires AllocatorOf(a, paths, devices) && id in devices
    ensures id in a.byID && a.byID[id] == IndexOf(a)(id) && 0 <= a.byID[id] < |a.devices|
  {}

  /** The indices of the devices that are not mandatory, in ID order. */
  method CandidateIndices(a: TopologyAllocator, excluded: set<int>) returns (candidates: seq<int>)
    ensures Ascending(candidates) && Indices(a, candidates)
    ensures forall i | 0 <= i < |a.devices| :: i in candidates <==> a.devices[i].id !in excluded
  {
    candidates := [];
    for k := 0 to |a.devices|
      invariant Ascending(candidates) && Indices(a, candidates)
      invariant forall i | 0 <= i < |candidates| :: candidates[i] < k
      invariant forall i | 0 <= i < k :: i in candidates <==> a.devices[i].id !in excluded
    {
      if a.devices[k].id !in excluded {
        candidates := candidates + [k];
      }
    }
  }

  lemma CandidatesAreOthers(a: TopologyAllocator, paths: seq<Path>, devices: map<int, NPUDevice>, selected: seq<int>,
                            ms: seq<int>, candidates: seq<int>)
    requires AllocatorOf(a, paths, devices) && Distinct(selected) && AllIn(selected, devices) &&
             ms == Renamed(selected, IndexOf(a))
    requires Ascending(candidates) && Indices(a, candidates)
    requires forall i | 0 <= i < |a.devices| :: i in candidates <==> a.devices[i].id !in Elements(selected)
    ensures CandidatesOf(a, ms, candidates)
    ensures SearchState(a, paths, ms, candidates[0..])
    ensures Renamed(ms, a.IDs()) == selected
  {
    IndicesOfIDs(a, paths, devices, selected);
    forall i | 0 <= i < |a.devices| ensures i in candidates <==> i !in ms {
      ElementsOf(selected, a.devices[i].id);
      IDRoundTrip(a, paths, devices, i);
      if i in ms {
        var k :| 0 <= k < |ms| && ms[k] == i;
        assert selected[k] == Renamed(ms, a.IDs())[k];
      }
      if a.devices[i].id in selected {
        var k :| 0 <= k < |selected| && selected[k] == a.devices[i].id;
        assert ms[k] == i;
      }
    }
    assert candidates[0..] == candidates;
    forall i, j | 0 <= i < |ms| && 0 <= j < |candidates| ensures ms[i] != candidates[j] {
      assert ms[i] in ms && candidates[j] in candidates;
    }
  }

  /** Enough devices: a completion exists. */
  lemma EnoughCandidates(a: TopologyAllocator, ms: seq<int>, candidates: seq<int>, n: int)
    requires Indices(a, ms) && Distinct(ms) && CandidatesOf(a, ms, candidates) && n <= |a.devices|
    ensures n - |ms| <= |candidates|
  {
    var all := seq(|a.devices|, i => i);
    forall i | 0 <= i < |all| ensures all[i] in Elements(ms) + Elements(candidates) {
      ElementsOf(ms, all[i]);
      ElementsOf(candidates, all[i]);
    }
    DistinctSize(all);
    DistinctSize(ms);
    DistinctSize(candidates);
    forall x | x in Elements(all) ensures x in Elements(ms) + Elements(candidates) {
      ElementsOf(all, x);
      var i :| 0 <= i < |all| && all[i] == x;
    }
    SubsetSize(Elements(all), Elements(ms) + Elements(candidates));
    UnionSize(Elements(ms), Elements(candidates));
  }

  lemma NoMoreThanDevices(a: TopologyAllocator, ms: seq<int>, candidates: seq<int>)
    requires Indices(a, ms) && Distinct(ms) && CandidatesOf(a, ms, candidates)
    ensures |ms| + |candidates| <= |a.devices|
  {
    CompletionApart(a, ms, candidates, candidates);
    IndexCount(a, ms + candidates);
  }

  lemma UnionSize(s: set<int>, t: set<int>)
    ensures |s + t| <= |s| + |t|
  {}

  /** SelectDevices: the mandatory devices alone when they fill the request, else the preferred set. */
  method SelectDevices(a: TopologyAllocator, must: seq<int>, n: int, ghost paths: seq<Path>,
                       ghost devices: map<int, NPUDevice>)
    returns (result: seq<int>)
    requires AllocatorOf(a, paths, devices) && AllIn(must, devices)
    requires |FirstOccurrences(must)| < n <= |a.devices| ==> FitsMachine(|a.tree.nodes|, n)
    ensures n <= |FirstOccurrences(must)| ==> result == FirstOccurrences(must)
    ensures |FirstOccurrences(must)| < n <= |a.devices| ==> Preferred(result, devices, must, n)
    ensures |a.devices| < n && |FirstOccurrences(must)| < n ==> result == []
  {
    hide Tallies, AllocatorOf, PreparedTables, ScoreAt, FirstOccurrences, SearchState, Explore, FitsMachine, Preferred,
      FirstCompletion;
    var selected, excluded := NormalizeMustInclude(must);
    FirstOccurrencesFacts(must);
    MandatoryIn(must, devices);
    var remaining := n - |selected|;
    if remaining <= 0 {
      return selected;
    }
    TopologyOf(a, paths, devices);
    var s := new AllocationSearch(a, paths);
    AddMandatory(s, selected, devices);
    ghost var ms := s.chosen;
    s.candidates := CandidateIndices(a, excluded);
    CandidatesAreOthers(a, paths, devices, selected, ms, s.candidates);
    NoMoreThanDevices(a, ms, s.candidates);
    s.PrepareBounds();
    s.Search(0, remaining);
    ExploreFindsBest(a, s.candidates, ms, 0, remaining, None);
    if s.best.None? {
      NothingFound(a, ms, s.candidates, n);
      return [];
    }
    BestIndices(a, ms, s.candidates, n, s.best);
    result := DeviceIDs(a, s.best.value);
    SearchAnswer(a, paths, devices, must, n, ms, s.candidates, s.best, result);
  }

  method DeviceIDs(a: TopologyAllocator, indices: seq<int>) returns (ids: seq<int>)
    requires Indices(a, indices)
    ensures ids == Renamed(indices, a.IDs())
  {
    ids := [];
    for k := 0 to |indices|
      invariant ids == Renamed(indices[..k], a.IDs())
    {
      ids := ids + [a.devices[indices[k]].id];
    }
    assert indices[..|indices|] == indices;
  }

  lemma MandatoryIn(must: seq<int>, devices: map<int, NPUDevice>)
    requires AllIn(must, devices)
    ensures AllIn(FirstOccurrences(must), devices)
  {}

  lemma TopologyOf(a: TopologyAllocator, paths: seq<Path>, devices: map<int, NPUDevice>)
    requires AllocatorOf(a, paths, devices)
    ensures a.Topology(paths)
  {}

  /** No choice at all means there were too few devices. */
  lemma NothingFound(a: TopologyAllocator, ms: seq<int>, candidates: seq<int>, n: int)
    requires Indices(a, ms) && Distinct(ms) && CandidatesOf(a, ms, candidates) && |ms| < n
    requires BestOf(a, candidates, ms, 0, n - |ms|, None, None)
    ensures |a.devices| < n
  {
    if n <= |a.devices| {
      EnoughCandidates(a, ms, candidates, n);
      var es := FromExists(candidates, 0, n - |ms|);
    }
  }

  lemma BestIndices(a: TopologyAllocator, ms: seq<int>, candidates: seq<int>, n: int, best: Choice)
    requires Indices(a, ms) && Distinct(ms) && CandidatesOf(a, ms, candidates) && |ms| < n
    requires best.Some? && BestOf(a, candidates, ms, 0, n - |ms|, None, best)
    ensures Indices(a, best.value)
  {
    hide ScoreAt, FirstAmong;
    var ws :| From(candidates, 0, n - |ms|, ws) && best.value == ms + ws &&
      FirstAmong(a, candidates, ms, 0, n - |ms|, ws);
    assert candidates[0..] == candidates;
    CompletionApart(a, ms, candidates, ws);
  }

  lemma SearchAnswer(a: TopologyAllocator, paths: seq<Path>, devices: map<int, NPUDevice>, must: seq<int>, n: int,
                     ms: seq<int>, candidates: seq<int>, best: Choice, result: seq<int>)
    requires AllocatorOf(a, paths, devices) && Indices(a, ms) && Distinct(ms) && |ms| < n
    requires Renamed(ms, a.IDs()) == FirstOccurrences(must) && CandidatesOf(a, ms, candidates)
    requires best.Some? && BestOf(a, candidates, ms, 0, n - |ms|, None, best) && result == Renamed(best.value, a.IDs())
    ensures Preferred(result, devices, must, n) && n <= |a.devices|
  {
    hide ScoreAt, FirstOccurrences, AllocatorOf, Preferred, FirstAmong;
    var ws :| From(candidates, 0, n - |ms|, ws) && best.value == ms + ws &&
      FirstAmong(a, candidates, ms, 0, n - |ms|, ws);
    FoundIsPreferred(a, paths, devices, must, n, ms, candidates, ws);
    assert candidates[0..] == candidates;
    CompletionApart(a, ms, candidates, ws);
    IndexCount(a, ms + ws);
  }

  lemma IndexCount(a: TopologyAllocator, xs: seq<int>)
    requires Indices(a, xs) && Distinct(xs)
    ensures |xs| <= |a.devices|
  {
    var all := seq(|a.devices|, i => i);
    DistinctSize(all);
    DistinctSize(xs);
    forall x | x in Elements(xs) ensures x in Elements(all) {
      ElementsOf(xs, x);
      var i :| 0 <= i < |xs| && xs[i] == x;
      assert all[x] == x;
      ElementsOf(all, x);
    }
    SubsetSize(Elements(xs), Elements(all));
  }

  // ----- how large the forest gets -----

  ghost function PathSet(paths: seq<Path>): set<Path> {
    set i | 0 <= i < |paths| :: paths[i]
  }

  lemma PathSetMembers(paths: seq<Path>, p: Path)
    ensures p in PathSet(paths) <==> p in paths
  {
    if p in paths { var i :| 0 <= i < |paths| && paths[i] == p; }
  }

  lemma {:induction false} PathSetSize(paths: seq<Path>)
    requires forall i, j | 0 <= i < j < |paths| :: paths[i] != paths[j]
    ensures |PathSet(paths)| == |paths|
  {
    hide PathSet;
    if |paths| == 0 {
      forall p ensures p !in PathSet(paths) { PathSetMembers(paths, p); }
      assert PathSet(paths) == {};
    } else {
      var init, last := paths[..|paths| - 1], paths[|paths| - 1];
      PathSetSize(init);
      assert paths == init + [last];
      forall p ensures p in PathSet(paths) <==> p in PathSet(init) + {last} {
        PathSetMembers(paths, p);
        PathSetMembers(init, p);
      }
      PathSetMembers(init, last);
      assert PathSet(paths) == PathSet(init) + {last};
    }
  }

  lemma PrefixesListed(devices: map<int, NPUDevice>, p: Path)
    ensures p in Prefixes(devices) <==> PrefixOfSome(p, devices)
  {
    if p in Prefixes(devices) {
      var id, k :| id in devices && devices[id].path.Some? && 1 <= k <= |devices[id].path.value| &&
        devices[id].path.value[..k] == p;
      assert PathOf(devices, id).Some? && p <= PathOf(devices, id).value;
    }
    if PrefixOfSome(p, devices) {
      var id :| PathOf(devices, id).Some? && p <= PathOf(devices, id).value;
      assert devices[id].path.value[..|p|] == p;
    }
  }

  /** The forest has exactly as many nodes as the device paths have distinct prefixes. */
  lemma NodeCount(nodes: seq<PCITreeNode>, roots: seq<nat>, paths: seq<Path>, devices: map<int, NPUDevice>)
    requires Forest(nodes, roots, paths) && NodesAreThePrefixes(paths, devices)
    ensures |nodes| == |Prefixes(devices)|
  {
    hide Prefixes;
    PathSetSize(paths);
    forall p ensures p in PathSet(paths) <==> p in Prefixes(devices) {
      PrefixesListed(devices, p);
      PathSetMembers(paths, p);
    }
    assert PathSet(paths) == Prefixes(devices);
  }

  // ----- selectPreferredDeviceIDs -----

  ghost function Offered(managed: map<int, NPUDevice>, available: seq<int>): map<int, NPUDevice> {
    map id | id in managed && id in available :: managed[id]
  }

  /** The documented bad requests. */
  ghost predicate BadRequest(managed: map<int, NPUDevice>, available: seq<int>, must: seq<int>, size: int) {
    || size < 0
    || !AllIn(available, managed)
    || size > |Offered(managed, available)|
    || !AllIn(must, Offered(managed, available))
    || |FirstOccurrences(must)| > size
  }

  /** Each error names a defect the request has, the first one checked. */
  ghost predicate Explains(e: RequestError, managed: map<int, NPUDevice>, available: seq<int>, must: seq<int>,
                           size: int) {
    match e
    case NegativeSize => size < 0
    case Unmanaged(id) => 0 <= size && id in available && id !in managed
    case TooFewAvailable(requested, count) =>
      0 <= size == requested && AllIn(available, managed) && count == |Offered(managed, available)| < size
    case UnknownMandatory(id) =>
      0 <= size <= |Offered(managed, available)| && AllIn(available, managed) && id in must &&
        id !in Offered(managed, available)
    case TooManyMandatory(count, limit) =>
      0 <= size == limit && AllIn(available, managed) && AllIn(must, Offered(managed, available)) &&
      count == |FirstOccurrences(must)| > size
    case WrongCount(_, _) => false
  }

  /** Naming the available devices in another order or repeatedly offers the same devices. */
  lemma OfferedSameSets(managed: map<int, NPUDevice>, available: seq<int>, available': seq<int>)
    requires Within(available, available') && Within(available', available)
    ensures Offered(managed, available) == Offered(managed, available')
    ensures AllIn(available, managed) <==> AllIn(available', managed)
  {}

  /** Nor does it, or repeating the mandatory IDs, change which requests are refused. */
  lemma BadRequestSameSets(managed: map<int, NPUDevice>, available: seq<int>, available': seq<int>,
                           must: seq<int>, must': seq<int>, size: int)
    requires Within(available, available') && Within(available', available)
    requires Within(must, must') && Within(must', must)
    ensures BadRequest(managed, available, must, size) <==> BadRequest(managed, available', must', size)
  {
    OfferedSameSets(managed, available, available');
    FirstOccurrencesSameSets(must, must');
    AllInSameSets(must, must', Offered(managed, available));
  }

  /** A request for managed devices is refused exactly when no set of devices could answer it. */
  lemma AcceptedIffPossible(managed: map<int, NPUDevice>, available: seq<int>, must: seq<int>, size: int)
    ensures !BadRequest(managed, available, must, size) <==>
            AllIn(available, managed) && exists ts :: Eligible(ts, Offered(managed, available), must, size)
  {
    hide Eligible, FirstOccurrences;
    if !BadRequest(managed, available, must, size) {
      var ts := SomeEligible(Offered(managed, available), must, size);
    }
    if exists ts :: Eligible(ts, Offered(managed, available), must, size) {
      var ts :| Eligible(ts, Offered(managed, available), must, size);
      EligibleFits(Offered(managed, available), must, size, ts);
    }
  }

  lemma EligibleFits(devices: map<int, NPUDevice>, must: seq<int>, size: int, ts: seq<int>)
    requires Eligible(ts, devices, must, size)
    ensures 0 <= size <= |devices| && AllIn(must, devices) && |FirstOccurrences(must)| <= size
  {
    hide FirstOccurrences;
    AscendingDistinct(ts);
    DistinctSize(ts);
    forall x | x in Elements(ts) ensures x in devices.Keys {
      ElementsOf(ts, x);
      var i :| 0 <= i < |ts| && ts[i] == x;
    }
    SubsetSize(Elements(ts), devices.Keys);
    forall i | 0 <= i < |must| ensures must[i] in devices {
      var x := must[i];
      assert x in ts;
      var k :| 0 <= k < |ts| && ts[k] == x;
    }
    var ms := FirstOccurrences(must);
    FirstOccurrencesFacts(must);
    DistinctSize(ms);
    forall x | x in Elements(ms) ensures x in Elements(ts) {
      ElementsOf(ms, x);
      ElementsOf(ts, x);
      SameMembers(ms, must, x);
      var k :| 0 <= k < |must| && must[k] == x;
    }
    SubsetSize(Elements(ms), Elements(ts));
  }

  lemma SomeEligible(devices: map<int, NPUDevice>, must: seq<int>, size: int) returns (ts: seq<int>)
    requires AllIn(must, devices) && |FirstOccurrences(must)| <= size <= |devices|
    ensures Eligible(ts, devices, must, size)
  {
    hide FirstOccurrences, Filter, Sorted, Eligible;
    var ms := FirstOccurrences(must);
    var keys := SortedListing(devices.Keys);
    FirstOccurrencesFacts(must);
    MandatoryIn(must, devices);
    var others := Filter(keys, NotIn(ms));
    FilterFacts(keys, NotIn(ms));
    EnoughOthers(devices, ms, keys, others);
    var taken := others[..size - |ms|];
    forall i | 0 <= i < |taken| ensures taken[i] in devices && taken[i] !in ms {
      var x := others[i];
      assert x in keys && NotIn(ms)(x);
      ElementsOf(keys, x);
    }
    var result := ms + taken;
    forall i, j | 0 <= i < |ms| && 0 <= j < |taken| ensures ms[i] != taken[j] { assert ms[i] in ms; }
    forall i | 0 <= i < |must| ensures must[i] in result {
      var x := must[i];
      assert x in ms;
    }
    SortedEligible(result, devices, must, size);
    ts := Sorted(result);
  }

  lemma EnoughOthers(devices: map<int, NPUDevice>, ms: seq<int>, keys: seq<int>, others: seq<int>)
    requires Elements(keys) == devices.Keys && others == Filter(keys, NotIn(ms)) && Distinct(ms) && Ascending(keys)
    ensures |devices| <= |ms| + |others|
  {
    hide Filter, Elements;
    FilterFacts(keys, NotIn(ms));
    AscendingDistinct(others);
    DistinctSize(ms);
    DistinctSize(others);
    forall x | x in devices.Keys ensures x in Elements(ms) + Elements(others) {
      ElementsOf(keys, x);
      ElementsOf(ms, x);
      ElementsOf(others, x);
      if x !in ms {
        var k :| 0 <= k < |keys| && keys[k] == x;
        assert NotIn(ms)(keys[k]);
      }
    }
    SubsetSize(devices.Keys, Elements(ms) + Elements(others));
    UnionSize(Elements(ms), Elements(others));
  }

  lemma FirstOccurrencesSameSets(xs: seq<int>, ys: seq<int>)
    requires Within(xs, ys) && Within(ys, xs)
    ensures |FirstOccurrences(xs)| == |FirstOccurrences(ys)|
  {
    hide FirstOccurrences;
    FirstOccurrencesFacts(xs);
    FirstOccurrencesFacts(ys);
    DistinctSize(FirstOccurrences(xs));
    DistinctSize(FirstOccurrences(ys));
    forall z ensures z in Elements(FirstOccurrences(xs)) <==> z in Elements(FirstOccurrences(ys)) {
      ElementsOf(FirstOccurrences(xs), z);
      ElementsOf(FirstOccurrences(ys), z);
      SameMembers(FirstOccurrences(xs), xs, z);
      SameMembers(FirstOccurrences(ys), ys, z);
      SameMembers(xs, ys, z);
    }
    assert Elements(FirstOccurrences(xs)) == Elements(FirstOccurrences(ys));
  }

  lemma AllInSameSets(xs: seq<int>, ys: seq<int>, devices: map<int, NPUDevice>)
    requires Within(xs, ys) && Within(ys, xs)
    ensures AllIn(xs, devices) <==> AllIn(ys, devices)
  {
    if AllIn(xs, devices) {
      forall i | 0 <= i < |ys| ensures ys[i] in devices {
        var y := ys[i];
        assert y in xs;
      }
    }
    if AllIn(ys, devices) {
      forall i | 0 <= i < |xs| ensures xs[i] in devices {
        var x := xs[i];
        assert x in ys;
      }
    }
  }

  lemma OfferedIs(devices: map<int, NPUDevice>, managed: map<int, NPUDevice>, available: seq<int>)
    requires Offers(devices, managed, available)
    ensures devices == Offered(managed, available)
  {
    var offered := Offered(managed, available);
    forall id ensures id in devices <==> id in offered {
      if id in devices { assert devices[id] == managed[id]; }
      if id in offered { assert id in available; }
    }
    assert devices.Keys == offered.Keys;
    forall id | id in devices ensures devices[id] == offered[id] {}
  }

  /** The mandatory devices alone fill the request. */
  lemma MandatoryFill(devices: map<int, NPUDevice>, must: seq<int>, n: int)
    requires AllIn(must, devices) && |FirstOccurrences(must)| == n
    ensures Preferred(FirstOccurrences(must), devices, must, n)
  {
    hide FirstOccurrences;
    var ms := FirstOccurrences(must);
    FirstOccurrencesFacts(must);
    MandatoryIn(must, devices);
    forall ts | Eligible(ts, devices, must, n) ensures Within(ts, ms + []) {
      assert ms + [] == ms;
      forall i | 0 <= i < |ms| ensures ms[i] in ts {
        assert ms[i] in must;
        var j :| 0 <= j < |must| && must[j] == ms[i];
        assert must[j] in ts;
      }
      AscendingDistinct(ts);
      SameSizeSameElements(ms, ts);
    }
    assert ms + [] == ms;
    OnlyEligible(devices, must, n, []);
  }

  /** All available devices are needed. */
  lemma AllNeeded(devices: map<int, NPUDevice>, must: seq<int>, n: int, keys: seq<int>)
    requires AllIn(must, devices) && |devices| == n
    requires Ascending(keys) && forall id :: id in keys <==> id in devices
    ensures Preferred(FirstOccurrences(must) + Filter(keys, NotIn(FirstOccurrences(must))), devices, must, n)
  {
    hide FirstOccurrences, Filter;
    var ms := FirstOccurrences(must);
    var extras := Filter(keys, NotIn(ms));
    var result := ms + extras;
    FirstOccurrencesFacts(must);
    MandatoryIn(must, devices);
    FilterFacts(keys, NotIn(ms));
    forall i | 0 <= i < |extras| ensures extras[i] in devices && extras[i] !in ms {
      var x := extras[i];
      assert x in keys;
      assert NotIn(ms)(x);
    }
    AscendingDistinct(extras);
    forall i, j | 0 <= i < |ms| && 0 <= j < |extras| ensures ms[i] != extras[j] { assert ms[i] in ms; }
    assert Distinct(result);
    forall i | 0 <= i < |keys| ensures keys[i] in result {
      var x := keys[i];
      if x !in ms {
        assert NotIn(ms)(x);
        assert x in extras;
      }
    }
    ResultIsEverything(devices, keys, result);
    forall ts | Eligible(ts, devices, must, n) ensures Within(ts, result) {
      forall i | 0 <= i < |ts| ensures ts[i] in result {
        var x := ts[i];
        assert x in keys;
        var k :| 0 <= k < |keys| && keys[k] == x;
      }
    }
    OnlyEligible(devices, must, n, extras);
  }

  lemma ResultIsEverything(devices: map<int, NPUDevice>, keys: seq<int>, result: seq<int>)
    requires Ascending(keys) && (forall id :: id in keys <==> id in devices)
    requires Distinct(result) && Within(keys, result) && AllIn(result, devices)
    ensures |result| == |devices|
  {
    AscendingDistinct(keys);
    DistinctSize(result);
    forall x ensures x in Elements(result) <==> x in devices.Keys {
      ElementsOf(result, x);
      if x in devices {
        assert x in keys;
        var k :| 0 <= k < |keys| && keys[k] == x;
      }
      if x in result { var i :| 0 <= i < |result| && result[i] == x; }
    }
    assert Elements(result) == devices.Keys;
  }

  lemma DeviceCount(a: TopologyAllocator, paths: seq<Path>, devices: map<int, NPUDevice>)
    requires AllocatorOf(a, paths, devices)
    ensures |a.devices| == |devices|
  {
    var all := seq(|a.devices|, i requires 0 <= i < |a.devices| => a.devices[i].id);
    DistinctSize(all);
    forall x ensures x in Elements(all) <==> x in devices.Keys {
      ElementsOf(all, x);
      if x in devices {
        InByID(a, paths, devices, x);
        assert all[a.byID[x]] == x;
      }
      if x in all { var i :| 0 <= i < |all| && all[i] == x; }
    }
    assert Elements(all) == devices.Keys;
  }

  /** The devices that are not mandatory, in ID order. */
  method Others(keys: seq<int>, excluded: set<int>, ghost ms: seq<int>) returns (extras: seq<int>)
    requires excluded == Elements(ms)
    ensures extras == Filter(keys, NotIn(ms))
  {
    extras := [];
    for k := 0 to |keys|
      invariant extras == Filter(keys[..k], NotIn(ms))
    {
      assert keys[..k + 1][..k] == keys[..k];
      ElementsOf(ms, keys[k]);
      if keys[k] !in excluded {
        extras := extras + [keys[k]];
      }
    }
    assert keys[..|keys|] == keys;
  }

  /** The search on the given devices answers with the preferred set. */
  method SearchPreferred(devices: map<int, NPUDevice>, must: seq<int>, size: nat) returns (selected: seq<int>)
    requires ValidPaths(devices) && AllIn(must, devices) && |FirstOccurrences(must)| < size <= |devices|
    requires FitsMachine(|Prefixes(devices)|, size)
    ensures Preferred(selected, devices, must, size)
  {
    hide Preferred, FirstOccurrences, FitsMachine, Prefixes;
    var a;
    ghost var paths;
    a, paths := NewTopologyAllocator(devices);
    NodesFit(a, paths, devices);
    DeviceCount(a, paths, devices);
    selected := SelectDevices(a, must, size, paths, devices);
  }

  lemma NodesFit(a: TopologyAllocator, paths: seq<Path>, devices: map<int, NPUDevice>)
    requires AllocatorOf(a, paths, devices) && NodesAreThePrefixes(paths, devices)
    ensures |a.tree.nodes| == |Prefixes(devices)|
  {
    NodeCount(a.tree.nodes, a.tree.roots, paths, devices);
  }

  lemma PreferredLength(result: seq<int>, devices: map<int, NPUDevice>, must: seq<int>, n: int)
    requires Preferred(result, devices, must, n)
    ensures |result| == n
  {}

  /** selectPreferredDeviceIDs: refuses exactly the bad requests, naming a defect, and otherwise
      answers with the preferred set, by search or by one of the two shortcuts. */
  method SelectPreferredDeviceIDs(managed: map<int, NPUDevice>, available: seq<int>, must: seq<int>, size: int)
    returns (r: Result<seq<int>>)
    requires ValidPaths(managed)
    requires |FirstOccurrences(must)| < size < |Offered(managed, available)| ==>
               FitsMachine(|Prefixes(Offered(managed, available))|, size)
    ensures r.Err? <==> BadRequest(managed, available, must, size)
    ensures r.Err? ==> Explains(r.error, managed, available, must, size)
    ensures r.Ok? ==> Preferred(r.value, Offered(managed, available), must, size) && |r.value| == size
  {
    hide Preferred, FirstOccurrences, FitsMachine, Prefixes, Filter;
    if size < 0 {
      return Err(NegativeSize);
    }
    var offer := AvailableDevices(managed, available);
    if offer.Err? {
      return Err(offer.error);
    }
    var devices := offer.value;
    OfferedIs(devices, managed, available);
    if size > |devices| {
      return Err(TooFewAvailable(size, |devices|));
    }
    var defect := ValidateMustInclude(devices, must, size);
    if defect.Some? {
      return Err(defect.value);
    }
    var selected, excluded := NormalizeMustInclude(must);
    if |selected| == size {
      MandatoryFill(devices, must, size);
      return Ok(selected);
    }
    if size == |devices| {
      var keys := SortedKeys(devices);
      var extras := Others(keys, excluded, selected);
      AllNeeded(devices, must, size, keys);
      PreferredLength(selected + extras, devices, must, size);
      return Ok(selected + extras);
    }
    selected := SearchPreferred(devices, must, size);
    PreferredLength(selected, devices, must, size);
    r := if |selected| != size then Err(WrongCount(|selected|, size)) else Ok(selected);
  }
}
