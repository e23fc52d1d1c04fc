/**
 The running counts of the search: what one more chosen device adds to the score, and what the
 suffix tables of prepareBounds hold.
 */
module Tally {
  import opened Ordering
  import opened Sums
  import opened Pairs
  import opened PCITopology
  import opened Score
  import opened Allocator
  import opened Bounds
  import opened CardPacking
  import opened Exhaustive
  import opened Admissibility

  // ----- adding a device -----

  ghost function SeparateRow(a: TopologyAllocator, index: int): int -> int {
    y => a.Attr().Separate()(index, y)
  }

  ghost function HopsRow(a: TopologyAllocator, index: int): int -> int {
    y => a.Attr().Hops()(index, y)
  }

  /** Score and counts are those of the chosen devices. */
  ghost predicate Tallies(a: TopologyAllocator, chosen: seq<int>, score: AllocationScore, sids: seq<int>,
                          numas: seq<int>) {
    && Indices(a, chosen) && Distinct(chosen)
    && score == ScoreAt(a, chosen)
    && |sids| == a.sidCount && CountsCards(sids, chosen, a.Attr().group)
    && |numas| == a.numaCount && CountsCards(numas, chosen, a.Attr().numa)
  }

  /** What add does to the score. */
  ghost function AddedScore(a: TopologyAllocator, chosen: seq<int>, score: AllocationScore, sids: seq<int>,
                            numas: seq<int>, index: nat): AllocationScore
    requires index < |a.devices| && 0 <= a.devices[index].sid < |sids| && a.devices[index].numa < |numas|
  {
    var d := a.devices[index];
    AllocationScore(
      score.unknownNUMA + (if d.numa < 0 then 1 else 0),
      score.numaNodes + (if d.numa >= 0 && numas[d.numa] == 0 then 1 else 0),
      score.sidGroups + (if sids[d.sid] == 0 then 1 else 0),
      score.unknownPCI + (if d.hasPCI then 0 else 1),
      score.separateRoots + Total(chosen, SeparateRow(a, index)),
      Max(score.maxDistance, RowMax(chosen, HopsRow(a, index))),
      score.totalDistance + Total(chosen, HopsRow(a, index)))
  }

  lemma Shortened(xs: seq<int>, x: int)
    ensures (xs + [x])[..|xs + [x]| - 1] == xs && (xs + [x])[|xs + [x]| - 1] == x
  {}

  lemma LabelsAdd<K>(xs: seq<int>, x: int, keep: int -> bool, tag: int -> K)
    ensures Labels(xs + [x], keep, tag) == Labels(xs, keep, tag) + if keep(x) then {tag(x)} else {}
  {
    Shortened(xs, x);
    LabelsStep(xs + [x], keep, tag);
  }

  lemma CardAfterAdd(xs: seq<int>, x: int, keep: int -> bool, tag: int -> int, counts: seq<int>)
    requires keep(x) && 0 <= tag(x) < |counts| && CountsCards(counts, xs, tag)
    requires forall i | 0 <= i < |xs| && tag(xs[i]) == tag(x) :: keep(xs[i])
    ensures |Labels(xs + [x], keep, tag)| == |Labels(xs, keep, tag)| + if counts[tag(x)] == 0 then 1 else 0
  {
    hide Count, Labels;
    var g := tag(x);
    LabelsAdd(xs, x, keep, tag);
    LabelIsCounted(xs, keep, tag, g);
    assert counts[g] == Count(xs, OnCard(tag, g));
    if g in Labels(xs, keep, tag) {
      assert Labels(xs, keep, tag) + {g} == Labels(xs, keep, tag);
    } else {
      assert |Labels(xs, keep, tag) + {g}| == |Labels(xs, keep, tag)| + 1;
    }
  }

  /** A card or NUMA node is new exactly when its count is zero. */
  lemma LabelIsCounted(xs: seq<int>, keep: int -> bool, tag: int -> int, g: int)
    requires forall i | 0 <= i < |xs| && tag(xs[i]) == g :: keep(xs[i])
    ensures g in Labels(xs, keep, tag) <==> Count(xs, OnCard(tag, g)) > 0
  {
    CountPositive(xs, OnCard(tag, g));
    if g in Labels(xs, keep, tag) {
      var i :| 0 <= i < |xs| && keep(xs[i]) && tag(xs[i]) == g;
      assert OnCard(tag, g)(xs[i]);
    }
    if exists i :: 0 <= i < |xs| && OnCard(tag, g)(xs[i]) {
      var i :| 0 <= i < |xs| && OnCard(tag, g)(xs[i]);
      assert tag(xs[i]) == g;
    }
  }

  lemma NUMAAdds(a: TopologyAllocator, paths: seq<Path>, chosen: seq<int>, numas: seq<int>, index: nat)
    requires a.Topology(paths) && index < |a.devices|
    requires |numas| == a.numaCount && CountsCards(numas, chosen, a.Attr().numa)
    ensures var numa := a.devices[index].numa;
      |Labels(chosen + [index], a.Attr().KnownNUMA(), a.Attr().numa)| ==
        |Labels(chosen, a.Attr().KnownNUMA(), a.Attr().numa)| + (if numa >= 0 && numas[numa] == 0 then 1 else 0)
  {
    hide Count, Labels;
    var attr := a.Attr();
    assert attr.numa(index) == a.devices[index].numa;
    if a.devices[index].numa >= 0 {
      CardAfterAdd(chosen, index, attr.KnownNUMA(), attr.numa, numas);
    } else {
      LabelsAdd(chosen, index, attr.KnownNUMA(), attr.numa);
    }
  }

  lemma CardAdds(a: TopologyAllocator, paths: seq<Path>, chosen: seq<int>, sids: seq<int>, index: nat)
    requires a.Topology(paths) && index < |a.devices|
    requires |sids| == a.sidCount && CountsCards(sids, chosen, a.Attr().group)
    ensures |Labels(chosen + [index], a.Attr().Present(), a.Attr().group)| ==
            |Labels(chosen, a.Attr().Present(), a.Attr().group)| + (if sids[a.devices[index].sid] == 0 then 1 else 0)
  {
    hide Count, Labels;
    assert a.Attr().group(index) == a.devices[index].sid;
    CardAfterAdd(chosen, index, a.Attr().Present(), a.Attr().group, sids);
  }

  lemma CountAdd(xs: seq<int>, x: int, p: int -> bool)
    ensures Count(xs + [x], p) == Count(xs, p) + if p(x) then 1 else 0
  {}

  lemma PCIAdds(a: TopologyAllocator, chosen: seq<int>, index: nat)
    requires index < |a.devices|
    ensures var d, all := a.devices[index], chosen + [index];
      Count(all, a.Attr().UnknownPCI()) == Count(chosen, a.Attr().UnknownPCI()) + (if d.hasPCI then 0 else 1) &&
      PairSum(all, a.Attr().Separate()) == PairSum(chosen, a.Attr().Separate()) +
        Total(chosen, SeparateRow(a, index)) &&
      PairMax(all, a.Attr().Hops()) == Max(PairMax(chosen, a.Attr().Hops()), RowMax(chosen, HopsRow(a, index))) &&
      PairSum(all, a.Attr().Hops()) == PairSum(chosen, a.Attr().Hops()) + Total(chosen, HopsRow(a, index))
  {}

  /** Adding a device updates the score to that of the longer list. */
  lemma AddedScoreIsScore(a: TopologyAllocator, paths: seq<Path>, chosen: seq<int>, score: AllocationScore,
                          sids: seq<int>, numas: seq<int>, index: nat)
    requires a.Topology(paths) && index < |a.devices| && Tallies(a, chosen, score, sids, numas)
    ensures AddedScore(a, chosen, score, sids, numas, index) == ScoreAt(a, chosen + [index])
  {
    hide Count, PairSum, PairMax, Total, RowMax, Labels;
    CountAdd(chosen, index, a.Attr().UnknownNUMA());
    NUMAAdds(a, paths, chosen, numas, index);
    CardAdds(a, paths, chosen, sids, index);
    PCIAdds(a, chosen, index);
    ScoreFields(chosen, a);
    ScoreFields(chosen + [index], a);
  }

  lemma CountsAdd(counts: seq<int>, chosen: seq<int>, tag: int -> int, index: int)
    requires CountsCards(counts, chosen, tag)
    ensures 0 <= tag(index) < |counts| ==>
            CountsCards(counts[tag(index) := counts[tag(index)] + 1], chosen + [index], tag)
    ensures !(0 <= tag(index) < |counts|) ==> CountsCards(counts, chosen + [index], tag)
  {}

  /** The counts after adding a device. */
  ghost function AddedCounts(counts: seq<int>, tag: int): seq<int> {
    if 0 <= tag < |counts| then counts[tag := counts[tag] + 1] else counts
  }

  lemma AddKeepsTallies(a: TopologyAllocator, paths: seq<Path>, chosen: seq<int>, score: AllocationScore,
                        sids: seq<int>, numas: seq<int>, index: nat)
    requires a.Topology(paths) && index < |a.devices| && Tallies(a, chosen, score, sids, numas)
    requires forall i | 0 <= i < |chosen| :: chosen[i] != index
    ensures Tallies(a, chosen + [index], AddedScore(a, chosen, score, sids, numas, index),
                    AddedCounts(sids, a.devices[index].sid), AddedCounts(numas, a.devices[index].numa))
  {
    hide Count, ScoreAt, AddedScore;
    AddedScoreIsScore(a, paths, chosen, score, sids, numas, index);
    CountsAdd(sids, chosen, a.Attr().group, index);
    CountsAdd(numas, chosen, a.Attr().numa, index);
  }

  lemma RowStep(xs: seq<int>, k: nat, f: int -> int)
    requires k < |xs|
    ensures Total(xs[..k + 1], f) == Total(xs[..k], f) + f(xs[k])
    ensures RowMax(xs[..k + 1], f) == Max(RowMax(xs[..k], f), f(xs[k]))
  {
    assert xs[..k + 1][..k] == xs[..k];
  }

  lemma RowEntries(a: TopologyAllocator, index: int, other: int)
    ensures SeparateRow(a, index)(other) == if a.Attr().pair(index, other).separateRoots then 1 else 0
    ensures HopsRow(a, index)(other) == if a.Attr().pair(index, other).known then a.Attr().pair(index, other).hops
            else 0
  {
    assert SeparateRow(a, index)(other) == a.Attr().Separate()(index, other);
    assert HopsRow(a, index)(other) == a.Attr().Hops()(index, other);
  }

  /** One turn of add's loop over the chosen devices. */
  lemma AddRowStep(a: TopologyAllocator, paths: seq<Path>, chosen: seq<int>, k: nat, index: nat)
    requires a.Topology(paths) && k < |chosen| && Indices(a, chosen) && index < |a.devices|
    ensures chosen[k] < |a.pairs[index]|
    ensures var pair := a.pairs[index][chosen[k]];
      Total(chosen[..k + 1], SeparateRow(a, index)) == Total(chosen[..k], SeparateRow(a, index)) +
        (if pair.separateRoots then 1 else 0) &&
      Total(chosen[..k + 1], HopsRow(a, index)) == Total(chosen[..k], HopsRow(a, index)) +
        (if pair.known then pair.hops else 0) &&
      RowMax(chosen[..k + 1], HopsRow(a, index)) == Max(RowMax(chosen[..k], HopsRow(a, index)), if pair.known
                                                        then pair.hops else 0) &&
      0 <= RowMax(chosen[..k], HopsRow(a, index))
  {
    hide Total, RowMax;
    RowStep(chosen, k, SeparateRow(a, index));
    RowStep(chosen, k, HopsRow(a, index));
    RowMaxSpec(chosen[..k], HopsRow(a, index));
    var other := chosen[k];
    PairKinds(a, paths, index, other);
    RowEntries(a, index, other);
  }

  // ----- the suffix tables -----

  ghost predicate SuffixRow(a: TopologyAllocator, candidates: seq<int>, i: nat, sids: seq<int>, knownNUMA: int,
                            knownPCI: int)
    requires i <= |candidates|
  {
    && |sids| == a.sidCount && CountsCards(sids, candidates[i..], a.Attr().group)
    && knownNUMA == Count(candidates[i..], a.Attr().KnownNUMA())
    && knownPCI == Count(candidates[i..], a.Attr().hasPCI)
  }

  lemma CountCons(xs: seq<int>, i: nat, p: int -> bool)
    requires i < |xs|
    ensures Count(xs[i..], p) == Count(xs[i + 1..], p) + if p(xs[i]) then 1 else 0
  {
    CountRemove(xs[i..], 0, p);
    assert xs[i..][..0] + xs[i..][0 + 1..] == xs[i + 1..];
  }

  lemma SuffixStep(a: TopologyAllocator, paths: seq<Path>, candidates: seq<int>, i: nat, sids: seq<int>, knownNUMA: int,
                   knownPCI: int)
    requires a.Topology(paths) && Indices(a, candidates) && i < |candidates|
    requires SuffixRow(a, candidates, i + 1, sids, knownNUMA, knownPCI)
    ensures var d := a.devices[candidates[i]];
      0 <= d.sid < |sids| &&
      SuffixRow(a, candidates, i, sids[d.sid := sids[d.sid] + 1], knownNUMA + (if d.numa >= 0 then 1 else 0),
                knownPCI + (if d.hasPCI then 1 else 0))
  {
    hide Count;
    forall g { CountCons(candidates, i, OnCard(a.Attr().group, g)); }
    CountCons(candidates, i, a.Attr().KnownNUMA());
    CountCons(candidates, i, a.Attr().hasPCI);
  }

  lemma SuffixEnd(a: TopologyAllocator, candidates: seq<int>, sids: seq<int>)
    requires |sids| == a.sidCount && forall g | 0 <= g < |sids| :: sids[g] == 0
    ensures SuffixRow(a, candidates, |candidates|, sids, 0, 0)
  {}

  /** The tables from position i on. */
  ghost predicate SuffixTables(a: TopologyAllocator, candidates: seq<int>, i: nat, suffixSID: seq<seq<int>>,
                               suffixKnownNUMA: seq<int>, suffixKnownPCI: seq<int>)
  {
    && i <= |candidates| && |suffixSID| == |suffixKnownNUMA| == |suffixKnownPCI| == |candidates| - i + 1
    && forall k | 0 <= k < |suffixSID| ::
      SuffixRow(a, candidates, i + k, suffixSID[k], suffixKnownNUMA[k], suffixKnownPCI[k])
  }

  lemma SuffixTablesStep(a: TopologyAllocator, paths: seq<Path>, candidates: seq<int>, i: nat, suffixSID: seq<seq<int>>,
                         suffixKnownNUMA: seq<int>, suffixKnownPCI: seq<int>)
    requires a.Topology(paths) && Indices(a, candidates) && i < |candidates|
    requires SuffixTables(a, candidates, i + 1, suffixSID, suffixKnownNUMA, suffixKnownPCI)
    ensures var d := a.devices[candidates[i]];
      0 <= d.sid < |suffixSID[0]| &&
      SuffixTables(a, candidates, i, [suffixSID[0][d.sid := suffixSID[0][d.sid] + 1]] + suffixSID,
                   [suffixKnownNUMA[0] + (if d.numa >= 0 then 1 else 0)] + suffixKnownNUMA,
                   [suffixKnownPCI[0] + (if d.hasPCI then 1 else 0)] + suffixKnownPCI)
  {
    hide SuffixRow;
    SuffixStep(a, paths, candidates, i, suffixSID[0], suffixKnownNUMA[0], suffixKnownPCI[0]);
    var d := a.devices[candidates[i]];
    var ss := [suffixSID[0][d.sid := suffixSID[0][d.sid] + 1]] + suffixSID;
    var ns := [suffixKnownNUMA[0] + (if d.numa >= 0 then 1 else 0)] + suffixKnownNUMA;
    var ps := [suffixKnownPCI[0] + (if d.hasPCI then 1 else 0)] + suffixKnownPCI;
    forall k | 0 <= k < |ss| ensures SuffixRow(a, candidates, i + k, ss[k], ns[k], ps[k]) {
      if k > 0 {
        assert SuffixRow(a, candidates, i + 1 + (k - 1), suffixSID[k - 1], suffixKnownNUMA[k - 1],
                         suffixKnownPCI[k - 1]);
        assert i + k == i + 1 + (k - 1);
      }
    }
  }

  /** Everything prepareBounds leaves for the bound. */
  ghost predicate PreparedTables(a: TopologyAllocator, candidates: seq<int>, suffixSID: seq<seq<int>>,
                                 suffixKnownNUMA: seq<int>, suffixKnownPCI: seq<int>, minDistance: int,
                                 minSeparate: int)
  {
    && Indices(a, candidates) && Ascending(candidates)
    && SuffixTables(a, candidates, 0, suffixSID, suffixKnownNUMA, suffixKnownPCI)
    && LeastDistance(a, minDistance)
    && minSeparate == if AllSeparate(a) then 1 else 0
  }

  // ----- the arithmetic of the bound -----

  lemma NewPairsFormula(m: nat, r: nat)
    ensures r * m + r * (r - 1) / 2 == Choose2(m + r) - Choose2(m)
  {
    Choose2Formula(m);
    Choose2Formula(m + r);
    SquareOfSum(m, r);
    HalfOfSum(m, r);
  }

  lemma SquareOfSum(m: int, r: int)
    ensures (m + r) * (m + r - 1) == m * (m - 1) + 2 * (r * m) + r * (r - 1)
  {}

  lemma {:induction false} EvenProduct(k: nat)
    ensures k * (k - 1) % 2 == 0
  {
    if k > 0 {
      EvenProduct(k - 1);
      assert k * (k - 1) == (k - 1) * (k - 2) + 2 * (k - 1);
    }
  }

  lemma HalfOfSum(m: nat, r: nat)
    ensures (m * (m - 1) + 2 * (r * m) + r * (r - 1)) / 2 == m * (m - 1) / 2 + r * m + r * (r - 1) / 2
  {
    EvenProduct(m);
    EvenProduct(r);
    Halves(m * (m - 1), r * m, r * (r - 1));
  }

  lemma Halves(x: int, y: int, z: int)
    requires x % 2 == 0 && z % 2 == 0
    ensures (x + 2 * y + z) / 2 == x / 2 + y + z / 2
  {}

  /** separateRoots grows by newPairs * minSeparateRoots. */
  lemma NewSeparate(m: nat, r: nat, minSeparate: int)
    requires minSeparate == 0 || minSeparate == 1
    ensures (r * m + r * (r - 1) / 2) * minSeparate == if minSeparate == 1 then Choose2(m + r) - Choose2(m) else 0
  {
    NewPairsFormula(m, r);
    if minSeparate == 1 { UnitProduct(r * m + r * (r - 1) / 2); } else { ZeroProduct(r * m + r * (r - 1) / 2); }
  }

  lemma UnitProduct(x: int)
    ensures x * 1 == x
  {}

  lemma ZeroProduct(x: int)
    ensures x * 0 == 0
  {}
}
