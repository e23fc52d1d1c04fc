/**
 The documented allocation score and its order (topology_allocator.go:26-41), computed from
 scratch for a list of selected devices.
 */
module Score {
  import opened Sums
  import opened Pairs
  import opened PCITopology

  /** slices.Compare on integers. */
  function Compare(a: seq<int>, b: seq<int>): int {
    if |a| == 0 then (if |b| == 0 then 0 else -1)
    else if |b| == 0 then 1
    else if a[0] < b[0] then -1
    else if a[0] > b[0] then 1
    else Compare(a[1..], b[1..])
  }

  datatype AllocationScore = AllocationScore(
    unknownNUMA: int, numaNodes: int, sidGroups: int,
    unknownPCI: int, separateRoots: int,
    maxDistance: int, totalDistance: int)
  {
    function Values(): (vs: seq<int>)
      ensures |vs| == 7
    {
      [unknownNUMA, numaNodes, sidGroups, unknownPCI, separateRoots, maxDistance, totalDistance]
    }

    predicate Less(other: AllocationScore) {
      Compare(Values(), other.Values()) < 0
    }
  }

  const ZERO_SCORE := AllocationScore(0, 0, 0, 0, 0, 0, 0)

  /** The lexicographic order written out field by field. */
  ghost predicate Below4(a: AllocationScore, b: AllocationScore) {
    a.unknownNUMA < b.unknownNUMA || (a.unknownNUMA == b.unknownNUMA &&
    (a.numaNodes < b.numaNodes || (a.numaNodes == b.numaNodes &&
    (a.sidGroups < b.sidGroups || (a.sidGroups == b.sidGroups &&
    a.unknownPCI < b.unknownPCI)))))
  }

  ghost predicate Tied4(a: AllocationScore, b: AllocationScore) {
    a.unknownNUMA == b.unknownNUMA && a.numaNodes == b.numaNodes &&
    a.sidGroups == b.sidGroups && a.unknownPCI == b.unknownPCI
  }

  ghost predicate Better(a: AllocationScore, b: AllocationScore) {
    Below4(a, b) || (Tied4(a, b) &&
    (a.separateRoots < b.separateRoots || (a.separateRoots == b.separateRoots &&
    (a.maxDistance < b.maxDistance || (a.maxDistance == b.maxDistance &&
    a.totalDistance < b.totalDistance)))))
  }

  ghost predicate AtLeastAsGood(a: AllocationScore, b: AllocationScore) {
    Better(a, b) || a == b
  }

  lemma CompareStep(a: seq<int>, b: seq<int>, x: int, y: int)
    ensures Compare([x] + a, [y] + b) == if x < y then -1 else if x > y then 1 else Compare(a, b)
  {}

  lemma CompareFour(a: seq<int>, b: seq<int>)
    requires |a| >= 4 && |b| >= 4
    ensures Compare(a, b) ==
      if a[0] != b[0] then (if a[0] < b[0] then -1 else 1)
      else if a[1] != b[1] then (if a[1] < b[1] then -1 else 1)
      else if a[2] != b[2] then (if a[2] < b[2] then -1 else 1)
      else if a[3] != b[3] then (if a[3] < b[3] then -1 else 1)
      else Compare(a[4..], b[4..])
  {
    assert a == [a[0]] + ([a[1]] + ([a[2]] + ([a[3]] + a[4..])));
    assert b == [b[0]] + ([b[1]] + ([b[2]] + ([b[3]] + b[4..])));
    CompareStep(a[4..], b[4..], a[3], b[3]);
    CompareStep([a[3]] + a[4..], [b[3]] + b[4..], a[2], b[2]);
    CompareStep([a[2]] + ([a[3]] + a[4..]), [b[2]] + ([b[3]] + b[4..]), a[1], b[1]);
    CompareStep([a[1]] + ([a[2]] + ([a[3]] + a[4..])), [b[1]] + ([b[2]] + ([b[3]] + b[4..])), a[0], b[0]);
  }

  /** less is the lexicographic order on the seven fields. */
  lemma LessIsLexicographic(a: AllocationScore, b: AllocationScore)
    ensures a.Less(b) <==> Better(a, b)
    ensures Compare(a.Values()[..4], b.Values()[..4]) < 0 <==> Below4(a, b)
  {
    var va, vb := a.Values(), b.Values();
    CompareFour(va, vb);
    CompareFour(va[..4], vb[..4]);
    assert va[..4][4..] == [] && vb[..4][4..] == [];
    assert va[4..] == [a.separateRoots] + ([a.maxDistance] + ([a.totalDistance] + []));
    assert vb[4..] == [b.separateRoots] + ([b.maxDistance] + ([b.totalDistance] + []));
    CompareStep([], [], a.totalDistance, b.totalDistance);
    CompareStep([a.totalDistance] + [], [b.totalDistance] + [], a.maxDistance, b.maxDistance);
    CompareStep([a.maxDistance] + ([a.totalDistance] + []), [b.maxDistance] + ([b.totalDistance] + []),
                a.separateRoots, b.separateRoots);
  }

  /** The order is total and transitive; "not better" is the reverse of "at least as good". */
  lemma OrderIsTotal(a: AllocationScore, b: AllocationScore)
    ensures !Better(a, b) <==> AtLeastAsGood(b, a)
  {}

  lemma OrderIsTransitive(a: AllocationScore, b: AllocationScore, c: AllocationScore)
    requires AtLeastAsGood(a, b) && AtLeastAsGood(b, c)
    ensures AtLeastAsGood(a, c)
    ensures Better(a, b) || Better(b, c) ==> Better(a, c)
  {}

  // ----- the score of a selection -----

  /** What the score sees of a device, with K the type of its card identity.  A negative NUMA
      number means unknown. */
  datatype Attributes<!K> = Attributes(numa: int -> int, group: int -> K, hasPCI: int -> bool,
                                       pair: (int, int) -> PCIDistance)
  {
    ghost function KnownNUMA(): int -> bool { x => numa(x) >= 0 }
    ghost function Present(): int -> bool { x => true }
    ghost function UnknownNUMA(): int -> bool { x => numa(x) < 0 }
    ghost function UnknownPCI(): int -> bool { x => !hasPCI(x) }
    ghost function Separate(): (int, int) -> int { (x, y) => if pair(x, y).separateRoots then 1 else 0 }
    ghost function Hops(): (int, int) -> int { (x, y) => if pair(x, y).known then pair(x, y).hops else 0 }
  }

  /** The different labels carried by the elements that satisfy keep. */
  ghost function Labels<K>(xs: seq<int>, keep: int -> bool, tag: int -> K): set<K> {
    set i | 0 <= i < |xs| && keep(xs[i]) :: tag(xs[i])
  }

  ghost function ScoreOf<K>(xs: seq<int>, a: Attributes<K>): AllocationScore {
    AllocationScore(
      Count(xs, a.UnknownNUMA()), |Labels(xs, a.KnownNUMA(), a.numa)|, |Labels(xs, a.Present(), a.group)|,
      Count(xs, a.UnknownPCI()), PairSum(xs, a.Separate()),
      PairMax(xs, a.Hops()), PairSum(xs, a.Hops()))
  }

  // ----- the score does not depend on the order of the selection -----

  ghost predicate SymmetricPairs<K(!new)>(a: Attributes<K>) {
    forall x, y :: a.pair(x, y) == a.pair(y, x)
  }

  lemma LabelsSubset<K>(xs: seq<int>, ys: seq<int>, keep: int -> bool, tag: int -> K)
    requires forall i | 0 <= i < |xs| :: xs[i] in ys
    ensures Labels(xs, keep, tag) <= Labels(ys, keep, tag)
  {}

  lemma RearrangedWithin(xs: seq<int>, ys: seq<int>)
    requires Rearranged(xs, ys)
    ensures forall i | 0 <= i < |xs| :: xs[i] in ys
  {
    forall i | 0 <= i < |xs| ensures xs[i] in ys {
      assert xs[i] in multiset(xs);
      assert xs[i] in multiset(ys);
    }
  }

  lemma LabelsRearranged<K>(xs: seq<int>, ys: seq<int>, keep: int -> bool, tag: int -> K)
    requires Rearranged(xs, ys)
    ensures Labels(xs, keep, tag) == Labels(ys, keep, tag)
  {
    RearrangedWithin(xs, ys);
    RearrangedWithin(ys, xs);
    LabelsSubset(xs, ys, keep, tag);
    LabelsSubset(ys, xs, keep, tag);
  }

  lemma PairMaxRearranged(xs: seq<int>, ys: seq<int>, w: (int, int) -> int)
    requires Rearranged(xs, ys) && Distinct(xs) && Distinct(ys) && Symmetric(w)
    ensures PairMax(xs, w) == PairMax(ys, w)
  {
    PairMaxRearrangedAtMost(xs, ys, w);
    PairMaxRearrangedAtMost(ys, xs, w);
  }

  /** The score is a function of the selected set: any order of insertion gives the same value. */
  lemma ScoreIsOrderFree<K(!new)>(xs: seq<int>, ys: seq<int>, a: Attributes<K>)
    requires Rearranged(xs, ys) && Distinct(xs) && Distinct(ys) && SymmetricPairs(a)
    ensures ScoreOf(xs, a) == ScoreOf(ys, a)
  {
    CountRearranged(xs, ys, a.UnknownNUMA());
    CountRearranged(xs, ys, a.UnknownPCI());
    LabelsRearranged(xs, ys, a.KnownNUMA(), a.numa);
    LabelsRearranged(xs, ys, a.Present(), a.group);
    assert Symmetric(a.Separate());
    assert Symmetric(a.Hops());
    PairSumRearranged(xs, ys, a.Separate());
    PairSumRearranged(xs, ys, a.Hops());
    PairMaxRearranged(xs, ys, a.Hops());
  }

  // ----- renaming the devices -----

  ghost function Renamed(xs: seq<int>, name: int -> int): seq<int> {
    seq(|xs|, i requires 0 <= i < |xs| => name(xs[i]))
  }

  ghost predicate SameLabelling<K, L>(xs: seq<int>, ys: seq<int>, keep: int -> bool, tag: int -> K,
                                      keep': int -> bool, tag': int -> L)
  {
    && |xs| == |ys|
    && (forall i | 0 <= i < |xs| :: keep(xs[i]) == keep'(ys[i]))
    && (forall i, j | 0 <= i < |xs| && 0 <= j < |xs| && keep(xs[i]) && keep(xs[j]) ::
          tag(xs[i]) == tag(xs[j]) <==> tag'(ys[i]) == tag'(ys[j]))
  }

  /** The two descriptions agree on xs and its renaming; card identities and NUMA numbers may
      be coded differently. */
  ghost predicate Describes<K, L>(xs: seq<int>, name: int -> int, a: Attributes<K>, b: Attributes<L>) {
    && SameLabelling(xs, Renamed(xs, name), a.KnownNUMA(), a.numa, b.KnownNUMA(), b.numa)
    && SameLabelling(xs, Renamed(xs, name), a.Present(), a.group, b.Present(), b.group)
    && (forall i | 0 <= i < |xs| :: a.hasPCI(xs[i]) == b.hasPCI(name(xs[i])))
    && (forall i, j | 0 <= i < |xs| && 0 <= j < |xs| :: a.pair(xs[i], xs[j]) == b.pair(name(xs[i]), name(xs[j])))
  }

  lemma LabelsStep<K>(xs: seq<int>, keep: int -> bool, tag: int -> K)
    requires |xs| > 0
    ensures var init, z := xs[..|xs| - 1], xs[|xs| - 1];
      Labels(xs, keep, tag) == Labels(init, keep, tag) + if keep(z) then {tag(z)} else {}
  {}

  lemma SameLabellingSeen<K, L>(xs: seq<int>, ys: seq<int>, keep: int -> bool, tag: int -> K,
                                keep': int -> bool, tag': int -> L)
    requires SameLabelling(xs, ys, keep, tag, keep', tag') && |xs| > 0 && keep(xs[|xs| - 1])
    ensures tag(xs[|xs| - 1]) in Labels(xs[..|xs| - 1], keep, tag) <==>
            tag'(ys[|ys| - 1]) in Labels(ys[..|ys| - 1], keep', tag')
  {}

  lemma {:induction false} LabelsRenamed<K, L>(xs: seq<int>, ys: seq<int>, keep: int -> bool, tag: int -> K,
                                               keep': int -> bool, tag': int -> L)
    requires SameLabelling(xs, ys, keep, tag, keep', tag')
    ensures |Labels(xs, keep, tag)| == |Labels(ys, keep', tag')|
  {
    if |xs| > 0 {
      LabelsRenamed(xs[..|xs| - 1], ys[..|ys| - 1], keep, tag, keep', tag');
      LabelsStep(xs, keep, tag);
      LabelsStep(ys, keep', tag');
      if keep(xs[|xs| - 1]) { SameLabellingSeen(xs, ys, keep, tag, keep', tag'); }
    } else {
      assert Labels(xs, keep, tag) == {} && Labels(ys, keep', tag') == {};
    }
  }

  lemma {:induction false} CountRenamed(xs: seq<int>, name: int -> int, p: int -> bool, q: int -> bool)
    requires forall i | 0 <= i < |xs| :: p(xs[i]) == q(name(xs[i]))
    ensures Count(xs, p) == Count(Renamed(xs, name), q)
  {
    if |xs| > 0 {
      var ys := Renamed(xs, name);
      assert ys[..|ys| - 1] == Renamed(xs[..|xs| - 1], name);
      CountRenamed(xs[..|xs| - 1], name, p, q);
    }
  }

  lemma {:induction false} RowRenamed(xs: seq<int>, name: int -> int, f: int -> int, g: int -> int)
    requires forall i | 0 <= i < |xs| :: f(xs[i]) == g(name(xs[i]))
    ensures Total(xs, f) == Total(Renamed(xs, name), g)
    ensures RowMax(xs, f) == RowMax(Renamed(xs, name), g)
  {
    if |xs| > 0 {
      var ys := Renamed(xs, name);
      assert ys[..|ys| - 1] == Renamed(xs[..|xs| - 1], name);
      RowRenamed(xs[..|xs| - 1], name, f, g);
    }
  }

  lemma {:induction false} PairsRenamed(xs: seq<int>, name: int -> int, v: (int, int) -> int, w: (int, int) -> int)
    requires forall i, j | 0 <= i < |xs| && 0 <= j < |xs| :: v(xs[j], xs[i]) == w(name(xs[j]), name(xs[i]))
    ensures PairSum(xs, v) == PairSum(Renamed(xs, name), w)
    ensures PairMax(xs, v) == PairMax(Renamed(xs, name), w)
  {
    if |xs| > 0 {
      var init, z, ys := xs[..|xs| - 1], xs[|xs| - 1], Renamed(xs, name);
      assert ys[..|ys| - 1] == Renamed(init, name);
      PairsRenamed(init, name, v, w);
      RowRenamed(init, name, y => v(z, y), y => w(ys[|ys| - 1], y));
    }
  }

  /** Interning card identities and NUMA numbers, and tabulating distances, preserves the score. */
  lemma ScoreRenamed<K, L>(xs: seq<int>, name: int -> int, a: Attributes<K>, b: Attributes<L>)
    requires Describes(xs, name, a, b)
    ensures ScoreOf(xs, a) == ScoreOf(Renamed(xs, name), b)
  {
    hide PairSum, PairMax, Count, Labels;
    forall i | 0 <= i < |xs| ensures a.UnknownNUMA()(xs[i]) == b.UnknownNUMA()(name(xs[i])) {
      assert a.KnownNUMA()(xs[i]) == b.KnownNUMA()(Renamed(xs, name)[i]);
    }
    CountRenamed(xs, name, a.UnknownNUMA(), b.UnknownNUMA());
    CountRenamed(xs, name, a.UnknownPCI(), b.UnknownPCI());
    LabelsRenamed(xs, Renamed(xs, name), a.KnownNUMA(), a.numa, b.KnownNUMA(), b.numa);
    LabelsRenamed(xs, Renamed(xs, name), a.Present(), a.group, b.Present(), b.group);
    PairsRenamed(xs, name, a.Separate(), b.Separate());
    PairsRenamed(xs, name, a.Hops(), b.Hops());
  }
}
