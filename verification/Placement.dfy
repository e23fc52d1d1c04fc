/**
 From selected devices to selections of tree endpoints and back: the PCI part of the score of a
 set of devices is the cost of its endpoint counts, and every allowed endpoint count is taken by
 some set of devices.
 */
module Placement {
  import opened Ordering
  import opened Sums
  import opened Pairs
  import opened PCITopology
  import opened EdgeIdentity
  import opened Subtrees
  import opened TreeKnapsack
  import opened ForestKnapsack

  ghost function At(place: int -> int, u: int): int -> bool {
    x => place(x) == u
  }

  ghost function Located(place: int -> int, n: nat): int -> bool {
    x => 0 <= place(x) < n
  }

  /** How many of the devices sit at each node. */
  ghost function SelectionOf(n: nat, xs: seq<int>, place: int -> int): Selection {
    seq(n, u => Count(xs, At(place, u)))
  }

  lemma LocatedAt(paths: seq<Path>, init: seq<int>, z: int, place: int -> int, v: int, u: nat)
    requires u < |paths|
    ensures var n, one := |paths|, if place(z) == u && Under(paths, v, u) then 1 else 0;
            Masked(paths, Amount(SelectionOf(n, init + [z], place)), v)(u) ==
            Masked(paths, Amount(SelectionOf(n, init, place)), v)(u) + one
  {}

  lemma {:induction false} TakenIsCount(paths: seq<Path>, xs: seq<int>, place: int -> int, v: int)
    ensures Taken(paths, SelectionOf(|paths|, xs, place), v) == CountUnder(paths, xs, place, v)
  {
    var n := |paths|;
    if |xs| == 0 {
      SumZero(n, Masked(paths, Amount(SelectionOf(n, xs, place)), v));
    } else {
      hide Taken, SelectionOf;
      TakenIsCount(paths, xs[..|xs| - 1], place, v);
      TakenStep(paths, xs, place, v);
    }
  }

  lemma TakenStep(paths: seq<Path>, xs: seq<int>, place: int -> int, v: int)
    requires |xs| > 0
    ensures Taken(paths, SelectionOf(|paths|, xs, place), v) ==
            Taken(paths, SelectionOf(|paths|, xs[..|xs| - 1], place), v) + if Inside(paths, place, v)(xs[|xs| - 1])
              then 1 else 0
  {
    hide Sum, Under, Inside, Count;
    var n, init, z := |paths|, xs[..|xs| - 1], xs[|xs| - 1];
    var all, before := Masked(paths, Amount(SelectionOf(n, xs, place)), v),
      Masked(paths, Amount(SelectionOf(n, init, place)), v);
    var one := OnlyAt(paths, v, place(z));
    assert xs == init + [z];
    forall u | 0 <= u < n ensures all(u) == before(u) + one(u) { LocatedAt(paths, init, z, place, v, u); }
    hide SelectionOf, Masked;
    SumAdd(n, before, one, all);
    OnlyAtSum(paths, place, v, z);
  }

  ghost function OnlyAt(paths: seq<Path>, v: int, w: int): int -> int {
    u => if u == w && Under(paths, v, u) then 1 else 0
  }

  lemma OnlyAtSum(paths: seq<Path>, place: int -> int, v: int, z: int)
    ensures Sum(|paths|, OnlyAt(paths, v, place(z))) == if Inside(paths, place, v)(z) then 1 else 0
  {
    hide Sum;
    var n, one := |paths|, OnlyAt(paths, v, place(z));
    if 0 <= place(z) < n { SumSingle(n, one, place(z)); } else { SumZero(n, one); }
  }

  lemma {:induction false} RootsTakenIsCount(nodes: seq<PCITreeNode>, roots: seq<nat>, paths: seq<Path>, xs: seq<int>,
                                             place: int -> int, r: nat)
    requires Forest(nodes, roots, paths) && r <= |roots|
    ensures RootsTaken(paths, roots, SelectionOf(|paths|, xs, place), r) == CountUnderFirst(paths, roots, xs, place, r)
  {
    hide Taken, CountUnder, CountUnderFirst, SelectionOf;
    if r == 0 {
      CountUnderNoRoots(paths, roots, xs, place);
    } else {
      RootsTakenIsCount(nodes, roots, paths, xs, place, r - 1);
      CountUnderFirstStep(nodes, roots, paths, xs, place, r - 1);
      TakenIsCount(paths, xs, place, roots[r - 1]);
    }
  }

  lemma AllRootsTaken(nodes: seq<PCITreeNode>, roots: seq<nat>, paths: seq<Path>, xs: seq<int>, place: int -> int)
    requires Forest(nodes, roots, paths)
    ensures RootsTaken(paths, roots, SelectionOf(|paths|, xs, place), |roots|) == Count(xs, Located(place, |paths|))
  {
    RootsTakenIsCount(nodes, roots, paths, xs, place, |roots|);
    forall x ensures Earlier(paths, roots, place, |roots|)(x) == Located(place, |paths|)(x) {
      var j := RootNumber(nodes, roots, paths, place(x));
      assert UnderRootNumber(paths, roots, j, place(x)) <==> 0 <= j < |roots|;
    }
    CountExt(xs, Earlier(paths, roots, place, |roots|), Located(place, |paths|));
  }

  lemma CrossPairsOfSelection(nodes: seq<PCITreeNode>, roots: seq<nat>, paths: seq<Path>, xs: seq<int>,
                              place: int -> int, j: nat)
    requires Forest(nodes, roots, paths) && j < |roots|
    ensures var s := SelectionOf(|paths|, xs, place);
            CrossPairs(paths, roots, xs, place, j) == CrossTerm(paths, roots, s, j)
  {
    RootsTakenIsCount(nodes, roots, paths, xs, place, j);
    TakenIsCount(paths, xs, place, roots[j]);
  }

  lemma {:induction false} RootsCrossIsSum(nodes: seq<PCITreeNode>, roots: seq<nat>, paths: seq<Path>, xs: seq<int>,
                                           place: int -> int, r: nat, f: int -> int)
    requires Forest(nodes, roots, paths) && r <= |roots|
    requires forall j | 0 <= j < r :: f(j) == CrossTerm(paths, roots, SelectionOf(|paths|, xs, place), j)
    ensures RootsCross(paths, roots, SelectionOf(|paths|, xs, place), r) == Sum(r, f)
  {
    if r > 0 { RootsCrossIsSum(nodes, roots, paths, xs, place, r - 1, f); }
  }

  /** Inside the tree of root r every contribution is an edge cost for r's count. */
  lemma TreeContribution(nodes: seq<PCITreeNode>, roots: seq<nat>, paths: seq<Path>, xs: seq<int>, place: int -> int,
                         j: nat, g: int -> int)
    requires Forest(nodes, roots, paths) && j < |roots|
    requires forall v :: g(v) == Contribution(nodes, paths, xs, place, v)
    ensures var s, r := SelectionOf(|paths|, xs, place), roots[j];
            SubtreeSum(paths, g, r) == InnerCost(paths, s, r, Taken(paths, s, r))
  {
    var s, r := SelectionOf(|paths|, xs, place), roots[j];
    var k := Taken(paths, s, r);
    assert r in roots;
    forall v | 0 <= v < |paths| ensures Masked(paths, g, r)(v) == Masked(paths, EdgeCost(paths, s, k), r)(v) {
      if Under(paths, r, v) { ContributionIsEdgeCost(nodes, roots, paths, xs, place, j, v); }
    }
    SumExt(|paths|, Masked(paths, g, r), Masked(paths, EdgeCost(paths, s, k), r));
    OuterCostSplits(paths, s, r, k);
  }

  lemma ContributionIsEdgeCost(nodes: seq<PCITreeNode>, roots: seq<nat>, paths: seq<Path>, xs: seq<int>,
                               place: int -> int, j: nat, v: nat)
    requires Forest(nodes, roots, paths) && j < |roots| && v < |nodes| && Under(paths, roots[j], v)
    ensures var s := SelectionOf(|paths|, xs, place);
            Contribution(nodes, paths, xs, place, v) == EdgeCost(paths, s, Taken(paths, s, roots[j]))(v)
  {
    hide Forest, Under, Taken, CountUnder, SelectionOf;
    RootOfUnder(nodes, roots, paths, j, v);
    TakenIsCount(paths, xs, place, v);
    TakenIsCount(paths, xs, place, roots[j]);
  }

  lemma RootOfUnder(nodes: seq<PCITreeNode>, roots: seq<nat>, paths: seq<Path>, j: nat, v: nat)
    requires Forest(nodes, roots, paths) && j < |roots| && v < |nodes| && Under(paths, roots[j], v)
    ensures nodes[v].root == roots[j]
  {
    UnderRoot(nodes, roots, paths, v, v);
    assert roots[j] in roots;
    assert NodeAgrees(nodes, paths, roots[j]) && NodeAgrees(nodes, paths, v);
    assert paths[roots[j]] == paths[v][..1] == paths[nodes[v].root];
  }

  lemma {:induction false} RootsInnerIsTotal(paths: seq<Path>, roots: seq<nat>, s: Selection, r: nat, f: int -> int)
    requires r <= |roots|
    requires forall i | 0 <= i < |roots| :: f(roots[i]) == InnerCost(paths, s, roots[i], Taken(paths, s, roots[i]))
    ensures RootsInner(paths, roots, s, r) == Total(roots[..r], f)
  {
    if r > 0 {
      RootsInnerIsTotal(paths, roots, s, r - 1, f);
      assert roots[..r][..r - 1] == roots[..r - 1];
    }
  }

  /** The pairs under separate roots and the hops of a set of devices are those of its selection. */
  lemma CostOfDevices(nodes: seq<PCITreeNode>, roots: seq<nat>, paths: seq<Path>, xs: seq<int>, place: int -> int,
                      separate: (int, int) -> int, hops: (int, int) -> int)
    requires Forest(nodes, roots, paths)
    requires forall i, j | 0 <= i < j < |xs| ::
      separate(xs[j], xs[i]) == if NodeDistance(paths, place(xs[j]), place(xs[i])).separateRoots then 1 else 0
    requires forall i, j | 0 <= i < j < |xs| :: hops(xs[j], xs[i]) == NodeHops(paths, place(xs[j]), place(xs[i]))
    ensures var s := SelectionOf(|paths|, xs, place);
            PairSum(xs, separate) == RootsCross(paths, roots, s, |roots|) &&
            PairSum(xs, hops) == RootsInner(paths, roots, s, |roots|)
  {
    var s := SelectionOf(|paths|, xs, place);
    SeparatePairsIsRootSum(nodes, roots, paths, xs, place, separate);
    forall j | 0 <= j < |roots| ensures CrossPairs(paths, roots, xs, place, j) == CrossTerm(paths, roots, s, j) {
      CrossPairsOfSelection(nodes, roots, paths, xs, place, j);
    }
    RootsCrossIsSum(nodes, roots, paths, xs, place, |roots|, j => CrossPairs(paths, roots, xs, place, j));
    HopsOfDevices(nodes, roots, paths, xs, place, hops);
  }

  lemma HopsOfDevices(nodes: seq<PCITreeNode>, roots: seq<nat>, paths: seq<Path>, xs: seq<int>, place: int -> int,
                      hops: (int, int) -> int)
    requires Forest(nodes, roots, paths)
    requires forall i, j | 0 <= i < j < |xs| :: hops(xs[j], xs[i]) == NodeHops(paths, place(xs[j]), place(xs[i]))
    ensures PairSum(xs, hops) == RootsInner(paths, roots, SelectionOf(|paths|, xs, place), |roots|)
  {
    var s := SelectionOf(|paths|, xs, place);
    var g := v => Contribution(nodes, paths, xs, place, v);
    TotalHopsIsEdgeSum(nodes, roots, paths, xs, place, hops);
    SumExt(|nodes|, v => Contribution(nodes, paths, xs, place, v), g);
    SumOverRoots(nodes, roots, paths, g);
    var f := r => SubtreeSum(paths, g, r);
    forall i | 0 <= i < |roots| ensures f(roots[i]) == InnerCost(paths, s, roots[i], Taken(paths, s, roots[i])) {
      TreeContribution(nodes, roots, paths, xs, place, i, g);
    }
    RootsInnerIsTotal(paths, roots, s, |roots|, f);
    assert roots[..|roots|] == roots;
    TotalExt(roots, f, r => SubtreeSum(paths, g, r));
  }

  // ----- sublists of the candidates -----

  /** es takes some of the candidates cs, in order. */
  ghost predicate SubList(es: seq<int>, cs: seq<int>) {
    Ascending(es) && Within(es, cs)
  }

  lemma SubListShrink(es: seq<int>, cs: seq<int>)
    requires Ascending(cs) && SubList(es, cs) && |cs| > 0
    ensures |es| > 0 && es[|es| - 1] == cs[|cs| - 1] ==> SubList(es[..|es| - 1], cs[..|cs| - 1])
    ensures !(|es| > 0 && es[|es| - 1] == cs[|cs| - 1]) ==> SubList(es, cs[..|cs| - 1])
  {}

  lemma {:induction false} CountSubList(es: seq<int>, cs: seq<int>, p: int -> bool)
    requires Ascending(cs) && SubList(es, cs)
    ensures Count(es, p) <= Count(cs, p)
  {
    if |cs| == 0 {
      if |es| > 0 { WithinNonEmpty(es, cs); }
    } else {
      SubListShrink(es, cs);
      if |es| > 0 && es[|es| - 1] == cs[|cs| - 1] {
        CountSubList(es[..|es| - 1], cs[..|cs| - 1], p);
      } else {
        CountSubList(es, cs[..|cs| - 1], p);
      }
    }
  }

  /** A completion of the chosen devices is an allowed selection. */
  lemma CompletionAllowed(n: nat, xs: seq<int>, es: seq<int>, cs: seq<int>, place: int -> int)
    requires Ascending(cs) && SubList(es, cs)
    ensures Allowed(SelectionOf(n, xs + es, place), SelectionOf(n, xs, place), SelectionOf(n, cs, place))
  {
    forall u | 0 <= u < n
      ensures Count(xs, At(place, u)) <= Count(xs + es, At(place, u)) <= Count(xs, At(place, u)) +
              Count(cs, At(place, u)) {
      CountConcat(xs, es, At(place, u));
      CountSubList(es, cs, At(place, u));
    }
  }

  // ----- realising an allowed selection -----

  /** Takes candidates, last first, as long as their node's quota lasts. */
  ghost function Pick(cs: seq<int>, quota: seq<int>, place: int -> int): seq<int> {
    if |cs| == 0 then []
    else
      var init, z := cs[..|cs| - 1], cs[|cs| - 1];
      var u := place(z);
      if 0 <= u < |quota| && quota[u] > 0 then Pick(init, quota[u := quota[u] - 1], place) + [z]
      else Pick(init, quota, place)
  }

  lemma {:induction false} PickWithin(cs: seq<int>, quota: seq<int>, place: int -> int)
    requires Ascending(cs)
    ensures SubList(Pick(cs, quota, place), cs)
    ensures forall i | 0 <= i < |Pick(cs, quota, place)| :: 0 <= place(Pick(cs, quota, place)[i]) < |quota|
  {
    if |cs| > 0 {
      var init, z := cs[..|cs| - 1], cs[|cs| - 1];
      var u := place(z);
      assert cs == init + [z];
      if 0 <= u < |quota| && quota[u] > 0 {
        PickWithin(init, quota[u := quota[u] - 1], place);
        var p := Pick(init, quota[u := quota[u] - 1], place);
        forall i | 0 <= i < |p| ensures p[i] < z {
          assert p[i] in init;
        }
      } else {
        PickWithin(init, quota, place);
      }
    }
  }

  lemma {:induction false} PickMeetsQuota(n: nat, cs: seq<int>, quota: seq<int>, place: int -> int, u: nat)
    requires |quota| == n && u < n && 0 <= quota[u] <= Count(cs, At(place, u))
    ensures Count(Pick(cs, quota, place), At(place, u)) == quota[u]
  {
    if |cs| > 0 {
      var init, z := cs[..|cs| - 1], cs[|cs| - 1];
      var w := place(z);
      if 0 <= w < n && quota[w] > 0 {
        var smaller := quota[w := quota[w] - 1];
        PickMeetsQuota(n, init, smaller, place, u);
        var p := Pick(init, smaller, place);
        assert (p + [z])[..|p + [z]| - 1] == p;
      } else {
        PickMeetsQuota(n, init, quota, place, u);
      }
    }
  }

  /** Every allowed selection is taken by some of the candidates, all of them with a known path. */
  lemma AllowedIsRealised(n: nat, xs: seq<int>, cs: seq<int>, place: int -> int, s: Selection) returns (es: seq<int>)
    requires Ascending(cs) && Allowed(s, SelectionOf(n, xs, place), SelectionOf(n, cs, place))
    ensures SubList(es, cs)
    ensures forall i | 0 <= i < |es| :: 0 <= place(es[i]) < n
    ensures SelectionOf(n, xs + es, place) == s
  {
    var quota := seq(n, u requires 0 <= u < n => s[u] - Count(xs, At(place, u)));
    es := Pick(cs, quota, place);
    PickWithin(cs, quota, place);
    forall u | 0 <= u < n ensures Count(xs + es, At(place, u)) == s[u] {
      assert SelectionOf(n, xs, place)[u] <= s[u] <= SelectionOf(n, xs, place)[u] + SelectionOf(n, cs, place)[u];
      PickMeetsQuota(n, cs, quota, place, u);
      CountConcat(xs, es, At(place, u));
    }
  }
}
