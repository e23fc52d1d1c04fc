/**
 The placement policy as documented (README.md:91-119), written directly in terms of the devices'
 metadata: what an answer is better in than every other choice, criterion by criterion.
 */
module Policy {
  import opened Ordering
  import opened Sums
  import opened Pairs
  import opened PCITopology
  import opened Score
  import opened Allocator
  import opened Lists
  import opened Preference

  // ----- the criteria -----

  ghost function WithoutNUMA(devices: map<int, NPUDevice>): int -> bool {
    id => !OnNUMANode(devices, id)
  }

  ghost function NUMANodes(devices: map<int, NPUDevice>, xs: seq<int>): set<int> {
    set i | 0 <= i < |xs| && OnNUMANode(devices, xs[i]) :: devices[xs[i]].numa.value
  }

  /** The positions whose device shares its card with no earlier one: one for every card. */
  ghost function CardPositions(devices: map<int, NPUDevice>, xs: seq<int>): set<int>
    requires AllDevices(devices, xs)
  {
    set i | 0 <= i < |xs| && FirstOnCard(devices, xs, i)
  }

  ghost predicate AllDevices(devices: map<int, NPUDevice>, xs: seq<int>) {
    forall i | 0 <= i < |xs| :: xs[i] in devices
  }

  ghost predicate FirstOnCard(devices: map<int, NPUDevice>, xs: seq<int>, i: int)
    requires AllDevices(devices, xs) && 0 <= i < |xs|
  {
    forall j | 0 <= j < i :: !SameCard(devices, xs[j], xs[i])
  }

  ghost function WithoutPath(devices: map<int, NPUDevice>): int -> bool {
    id => id !in devices || devices[id].path.None?
  }

  /** Both paths are known. */
  ghost predicate Located(devices: map<int, NPUDevice>, x: int, y: int) {
    x in devices && y in devices && devices[x].path.Some? && devices[y].path.Some?
  }

  /** Both paths begin at the same PCI root. */
  ghost predicate SameRoot(devices: map<int, NPUDevice>, x: int, y: int)
    requires Located(devices, x, y)
  {
    var p, q := devices[x].path.value, devices[y].path.value;
    |p| > 0 && |q| > 0 && p[0] == q[0]
  }

  ghost function SeparateRoots(devices: map<int, NPUDevice>): (int, int) -> int {
    (x, y) => if Located(devices, x, y) && !SameRoot(devices, x, y) then 1 else 0
  }

  /** The hops of a pair under one root, over the nodes the two paths do not share. */
  ghost function Hops(devices: map<int, NPUDevice>): (int, int) -> int {
    (x, y) =>
      if Located(devices, x, y) && SameRoot(devices, x, y)
      then |devices[x].path.value| + |devices[y].path.value| -
           2 * CommonPrefix(devices[x].path.value, devices[y].path.value)
      else 0
  }

  // ----- the criteria are the fields of the score -----

  lemma {:induction false} CardsCounted(devices: map<int, NPUDevice>, xs: seq<int>)
    requires AllDevices(devices, xs) && Distinct(xs)
    ensures var b := DeviceAttributes(devices); |CardPositions(devices, xs)| == |Labels(xs, b.Present(), b.group)|
  {
    hide Labels, DeviceAttributes, CardPositions;
    var b := DeviceAttributes(devices);
    if |xs| == 0 {
      NoPositions(devices);
    } else {
      var init, z := xs[..|xs| - 1], xs[|xs| - 1];
      CardsCounted(devices, init);
      LabelsStep(xs, b.Present(), b.group);
      PositionsStep(devices, xs);
      NewCard(devices, xs);
      OneMoreLabel(Labels(init, b.Present(), b.group), b.group(z));
    }
  }

  lemma OneMoreLabel<K>(labels: set<K>, k: K)
    ensures |labels + {k}| == |labels| + if k in labels then 0 else 1
  {
    if k in labels { assert labels + {k} == labels; }
  }

  lemma NoPositions(devices: map<int, NPUDevice>)
    ensures var b := DeviceAttributes(devices);
            CardPositions(devices, []) == {} && Labels([], b.Present(), b.group) == {}
  {}

  lemma PositionsStep(devices: map<int, NPUDevice>, xs: seq<int>)
    requires AllDevices(devices, xs) && |xs| > 0
    ensures |CardPositions(devices, xs)| ==
            |CardPositions(devices, xs[..|xs| - 1])| + if FirstOnCard(devices, xs, |xs| - 1) then 1 else 0
  {
    var last, init := |xs| - 1, xs[..|xs| - 1];
    forall i | 0 <= i < last ensures FirstOnCard(devices, init, i) <==> FirstOnCard(devices, xs, i) {}
    var before := CardPositions(devices, init);
    assert last !in before;
    assert CardPositions(devices, xs) == if FirstOnCard(devices, xs, last) then before + {last} else before;
  }

  lemma NewCard(devices: map<int, NPUDevice>, xs: seq<int>)
    requires AllDevices(devices, xs) && Distinct(xs) && |xs| > 0
    ensures var b := DeviceAttributes(devices);
            FirstOnCard(devices, xs, |xs| - 1) <==>
            b.group(xs[|xs| - 1]) !in Labels(xs[..|xs| - 1], b.Present(), b.group)
  {
    var b, z, init := DeviceAttributes(devices), xs[|xs| - 1], xs[..|xs| - 1];
    forall j | 0 <= j < |init| ensures SameCard(devices, xs[j], z) <==> b.group(init[j]) == b.group(z) {
      AttributesAgree(devices, xs[j], z);
    }
    hide SameCard, DeviceAttributes;
    if b.group(z) in Labels(init, b.Present(), b.group) {
      var j :| 0 <= j < |init| && b.group(init[j]) == b.group(z);
      assert SameCard(devices, xs[j], z);
    }
    if !FirstOnCard(devices, xs, |xs| - 1) {
      var j :| 0 <= j < |init| && SameCard(devices, xs[j], z);
      assert b.Present()(init[j]);
    }
  }

  lemma NodesCounted(devices: map<int, NPUDevice>, xs: seq<int>)
    requires AllDevices(devices, xs)
    ensures var b := DeviceAttributes(devices); NUMANodes(devices, xs) == Labels(xs, b.KnownNUMA(), b.numa)
  {
    var b := DeviceAttributes(devices);
    forall i | 0 <= i < |xs|
      ensures b.KnownNUMA()(xs[i]) == OnNUMANode(devices, xs[i])
      ensures OnNUMANode(devices, xs[i]) ==> b.numa(xs[i]) == devices[xs[i]].numa.value
    {
      AttributesAgree(devices, xs[i], xs[i]);
    }
    hide DeviceAttributes;
    forall v ensures v in NUMANodes(devices, xs) <==> v in Labels(xs, b.KnownNUMA(), b.numa) {
      if v in NUMANodes(devices, xs) {
        var i :| 0 <= i < |xs| && OnNUMANode(devices, xs[i]) && devices[xs[i]].numa.value == v;
        assert b.KnownNUMA()(xs[i]) && b.numa(xs[i]) == v;
      }
      if v in Labels(xs, b.KnownNUMA(), b.numa) {
        var i :| 0 <= i < |xs| && b.KnownNUMA()(xs[i]) && b.numa(xs[i]) == v;
        assert OnNUMANode(devices, xs[i]);
      }
    }
  }

  lemma UnknownsCounted(devices: map<int, NPUDevice>, xs: seq<int>)
    requires AllDevices(devices, xs)
    ensures var b := DeviceAttributes(devices);
            Count(xs, WithoutNUMA(devices)) == Count(xs, b.UnknownNUMA()) &&
            Count(xs, WithoutPath(devices)) == Count(xs, b.UnknownPCI())
  {
    hide Count;
    var b := DeviceAttributes(devices);
    forall i | 0 <= i < |xs| ensures WithoutNUMA(devices)(xs[i]) == b.UnknownNUMA()(xs[i]) {
      AttributesAgree(devices, xs[i], xs[i]);
    }
    CountExt(xs, WithoutNUMA(devices), b.UnknownNUMA());
    CountExt(xs, WithoutPath(devices), b.UnknownPCI());
  }

  lemma PairsOfDevices(devices: map<int, NPUDevice>, x: int, y: int)
    requires ValidPaths(devices) && x in devices && y in devices
    ensures var b := DeviceAttributes(devices);
            SeparateRoots(devices)(x, y) == b.Separate()(x, y) && Hops(devices)(x, y) == b.Hops()(x, y)
  {
    hide CommonPrefix;
    if Located(devices, x, y) {
      var p, q := devices[x].path.value, devices[y].path.value;
      CommonPrefixLongest(p, q, 1);
      assert p[..1] == [p[0]] && q[..1] == [q[0]];
    }
  }

  lemma PairsCounted(devices: map<int, NPUDevice>, xs: seq<int>)
    requires AllDevices(devices, xs) && ValidPaths(devices)
    ensures var b := DeviceAttributes(devices);
            && PairSum(xs, SeparateRoots(devices)) == PairSum(xs, b.Separate())
            && PairSum(xs, Hops(devices)) == PairSum(xs, b.Hops())
            && PairMax(xs, Hops(devices)) == PairMax(xs, b.Hops())
  {
    hide PairSum, PairMax, DeviceAttributes, SeparateRoots, Hops;
    var b := DeviceAttributes(devices);
    forall i, j | 0 <= i < j < |xs|
      ensures SeparateRoots(devices)(xs[j], xs[i]) == b.Separate()(xs[j], xs[i])
      ensures Hops(devices)(xs[j], xs[i]) == b.Hops()(xs[j], xs[i])
    {
      PairsOfDevices(devices, xs[j], xs[i]);
    }
    PairSumExt(xs, SeparateRoots(devices), b.Separate());
    PairSumExt(xs, Hops(devices), b.Hops());
    PairMaxExt(xs, Hops(devices), b.Hops());
  }

  /** The seven values, each from the metadata, are the fields of the score. */
  lemma CriteriaAreFields(devices: map<int, NPUDevice>, xs: seq<int>)
    requires AllDevices(devices, xs) && Distinct(xs) && ValidPaths(devices)
    ensures DeviceScore(xs, devices).unknownNUMA == Count(xs, WithoutNUMA(devices))
    ensures DeviceScore(xs, devices).numaNodes == |NUMANodes(devices, xs)|
    ensures DeviceScore(xs, devices).sidGroups == |CardPositions(devices, xs)|
    ensures DeviceScore(xs, devices).unknownPCI == Count(xs, WithoutPath(devices))
    ensures DeviceScore(xs, devices).separateRoots == PairSum(xs, SeparateRoots(devices))
    ensures DeviceScore(xs, devices).maxDistance == PairMax(xs, Hops(devices))
    ensures DeviceScore(xs, devices).totalDistance == PairSum(xs, Hops(devices))
  {
    hide Count, Labels, PairSum, PairMax, NUMANodes, CardPositions, DeviceAttributes;
    UnknownsCounted(devices, xs);
    NodesCounted(devices, xs);
    CardsCounted(devices, xs);
    PairsCounted(devices, xs);
  }

  // ----- the policy -----

  /** Against every other choice the answer has no more devices without a NUMA node; if as many, no
      more NUMA nodes; if as many, no more cards; if as many, no more devices without a path; if as
      many, no more pairs under separate roots; if as many, no greater largest distance; and if as
      great, no greater total distance. */
  lemma AnswerFollowsPolicy(devices: map<int, NPUDevice>, must: seq<int>, n: int, result: seq<int>, ts: seq<int>)
    requires ValidPaths(devices) && Preferred(result, devices, must, n) && Eligible(ts, devices, must, n)
    ensures AllDevices(devices, result) && AllDevices(devices, ts)
    ensures Count(result, WithoutNUMA(devices)) <= Count(ts, WithoutNUMA(devices))
    ensures Count(result, WithoutNUMA(devices)) == Count(ts, WithoutNUMA(devices)) ==>
              |NUMANodes(devices, result)| <= |NUMANodes(devices, ts)|
    ensures Count(result, WithoutNUMA(devices)) == Count(ts, WithoutNUMA(devices)) &&
            |NUMANodes(devices, result)| == |NUMANodes(devices, ts)| ==>
              |CardPositions(devices, result)| <= |CardPositions(devices, ts)|
    ensures SameLocality(devices, result, ts) ==> Count(result, WithoutPath(devices)) <= Count(ts, WithoutPath(devices))
    ensures SameLocality(devices, result, ts) &&
            Count(result, WithoutPath(devices)) == Count(ts, WithoutPath(devices)) ==>
              PairSum(result, SeparateRoots(devices)) <= PairSum(ts, SeparateRoots(devices))
    ensures SameAvailability(devices, result, ts) ==> PairMax(result, Hops(devices)) <= PairMax(ts, Hops(devices))
    ensures SameAvailability(devices, result, ts) && PairMax(result, Hops(devices)) == PairMax(ts, Hops(devices)) ==>
              PairSum(result, Hops(devices)) <= PairSum(ts, Hops(devices))
  {
    hide Count, PairSum, PairMax, NUMANodes, CardPositions, DeviceScore, Sorted;
    AnswerDevices(devices, must, n, result);
    AscendingDistinct(ts);
    CriteriaAreFields(devices, ts);
    CriteriaAreFields(devices, result);
    AnswerScore(devices, result);
  }

  /** Equal in devices without a NUMA node, NUMA nodes and cards. */
  ghost predicate SameLocality(devices: map<int, NPUDevice>, xs: seq<int>, ys: seq<int>)
    requires AllDevices(devices, xs) && AllDevices(devices, ys)
  {
    && Count(xs, WithoutNUMA(devices)) == Count(ys, WithoutNUMA(devices))
    && |NUMANodes(devices, xs)| == |NUMANodes(devices, ys)|
    && |CardPositions(devices, xs)| == |CardPositions(devices, ys)|
  }

  /** Equal also in devices without a path and in pairs under separate roots. */
  ghost predicate SameAvailability(devices: map<int, NPUDevice>, xs: seq<int>, ys: seq<int>)
    requires AllDevices(devices, xs) && AllDevices(devices, ys)
  {
    && SameLocality(devices, xs, ys)
    && Count(xs, WithoutPath(devices)) == Count(ys, WithoutPath(devices))
    && PairSum(xs, SeparateRoots(devices)) == PairSum(ys, SeparateRoots(devices))
  }

  lemma AnswerDevices(devices: map<int, NPUDevice>, must: seq<int>, n: int, result: seq<int>)
    requires Preferred(result, devices, must, n)
    ensures AllDevices(devices, result) && Distinct(result)
  {
    hide DeviceScore, Sorted;
    SortedFacts(result);
    forall i | 0 <= i < |result| ensures result[i] in devices {
      var x := result[i];
      assert x in Sorted(result);
      var k :| 0 <= k < |Sorted(result)| && Sorted(result)[k] == x;
    }
  }

  lemma AnswerScore(devices: map<int, NPUDevice>, result: seq<int>)
    requires Distinct(result)
    ensures DeviceScore(Sorted(result), devices) == DeviceScore(result, devices)
  {
    hide ScoreOf, Sorted;
    SortedFacts(result);
    DevicePairsSymmetric(devices);
    AscendingDistinct(Sorted(result));
    ScoreIsOrderFree(Sorted(result), result, DeviceAttributes(devices));
  }

  /** And if all of these are equal, the answer's sorted list is the other's or smaller at the first
      place where they differ. */
  lemma TiesGoToSmallerIDs(devices: map<int, NPUDevice>, must: seq<int>, n: int, result: seq<int>, ts: seq<int>)
    returns (k: nat)
    requires ValidPaths(devices) && Preferred(result, devices, must, n) && Eligible(ts, devices, must, n)
    requires AllDevices(devices, result) && SameAvailability(devices, result, ts)
    requires PairMax(result, Hops(devices)) == PairMax(ts, Hops(devices))
    requires PairSum(result, Hops(devices)) == PairSum(ts, Hops(devices))
    ensures k <= |ts| == |Sorted(result)| && Sorted(result)[..k] == ts[..k]
    ensures k < |ts| ==> Sorted(result)[k] < ts[k]
  {
    hide Count, PairSum, PairMax, NUMANodes, CardPositions, DeviceScore, Sorted, Compare;
    AnswerDevices(devices, must, n, result);
    AscendingDistinct(ts);
    CriteriaAreFields(devices, ts);
    CriteriaAreFields(devices, result);
    AnswerScore(devices, result);
    k := FirstPlace(Sorted(result), ts);
  }

  lemma {:induction false} FirstPlace(xs: seq<int>, ys: seq<int>) returns (k: nat)
    requires |xs| == |ys| && Compare(xs, ys) <= 0
    ensures k <= |xs| && xs[..k] == ys[..k] && (k < |xs| ==> xs[k] < ys[k])
  {
    if |xs| == 0 || xs[0] < ys[0] {
      k := 0;
    } else {
      k := FirstPlace(xs[1..], ys[1..]);
      assert xs[..k + 1] == [xs[0]] + xs[1..][..k] && ys[..k + 1] == [ys[0]] + ys[1..][..k];
      k := k + 1;
    }
  }
}
