/**
 Greedy card packing (topology_allocator.go:262-277): filling the cards that are already open and
 then opening the cards with the most free devices opens as few new cards as possible.
 */
module CardPacking {
  import opened Ordering
  import opened Sums
  import opened Pairs
  import opened Placement
  import opened Score

  ghost function OnCard(group: int -> int, g: int): int -> bool {
    x => group(x) == g
  }

  // ----- cards and devices per card -----

  /** Number of cards below n that hold one of xs. */
  ghost function Opened(xs: seq<int>, group: int -> int): int -> int {
    g => if Count(xs, OnCard(group, g)) > 0 then 1 else 0
  }

  lemma {:induction false} CountPositive(xs: seq<int>, p: int -> bool)
    ensures Count(xs, p) > 0 <==> exists i :: 0 <= i < |xs| && p(xs[i])
  {
    if |xs| > 0 {
      CountPositive(xs[..|xs| - 1], p);
      if exists i :: 0 <= i < |xs| && p(xs[i]) {
        var i :| 0 <= i < |xs| && p(xs[i]);
        if i < |xs| - 1 { assert p(xs[..|xs| - 1][i]); }
      }
      if Count(xs[..|xs| - 1], p) > 0 {
        var i :| 0 <= i < |xs| - 1 && p(xs[..|xs| - 1][i]);
        assert p(xs[i]);
      }
    }
  }

  ghost predicate CardsBelow(xs: seq<int>, group: int -> int, n: nat) {
    forall i | 0 <= i < |xs| :: 0 <= group(xs[i]) < n
  }

  ghost function UpTo(cards: set<int>, n: nat): set<int> {
    set k | k in cards && k < n
  }

  lemma UpToStep(cards: set<int>, n: nat)
    ensures |UpTo(cards, n + 1)| == |UpTo(cards, n)| + if n in cards then 1 else 0
  {
    var fewer, all := UpTo(cards, n), UpTo(cards, n + 1);
    assert n !in fewer;
    if n in cards { assert all == fewer + {n}; } else { assert all == fewer; }
  }

  lemma CardOpened(xs: seq<int>, keep: int -> bool, group: int -> int, g: int)
    requires forall x :: keep(x)
    ensures Opened(xs, group)(g) == if g in Labels(xs, keep, group) then 1 else 0
  {
    CountPositive(xs, OnCard(group, g));
    CardLabel(xs, keep, group, g);
  }

  lemma {:induction false} OpenedIsLabels(xs: seq<int>, keep: int -> bool, group: int -> int, n: nat)
    requires forall x :: keep(x)
    requires forall i | 0 <= i < |xs| :: 0 <= group(xs[i])
    ensures Sum(n, Opened(xs, group)) == |UpTo(Labels(xs, keep, group), n)|
  {
    if n == 0 {
      forall k | k in Labels(xs, keep, group) ensures 0 <= k {
        var i :| 0 <= i < |xs| && keep(xs[i]) && group(xs[i]) == k;
      }
      assert UpTo(Labels(xs, keep, group), 0) == {};
    } else {
      OpenedIsLabels(xs, keep, group, n - 1);
      CardOpened(xs, keep, group, n - 1);
      UpToStep(Labels(xs, keep, group), n - 1);
    }
  }

  lemma CardLabel(xs: seq<int>, keep: int -> bool, group: int -> int, g: int)
    requires forall x :: keep(x)
    ensures g in Labels(xs, keep, group) <==> exists i :: 0 <= i < |xs| && OnCard(group, g)(xs[i])
  {
    if exists i :: 0 <= i < |xs| && OnCard(group, g)(xs[i]) {
      var i :| 0 <= i < |xs| && OnCard(group, g)(xs[i]);
      var x := xs[i];
      assert keep(x);
      assert keep(xs[i]) && group(xs[i]) == g;
    }
    if g in Labels(xs, keep, group) {
      var i :| 0 <= i < |xs| && keep(xs[i]) && group(xs[i]) == g;
      assert OnCard(group, g)(xs[i]);
    }
  }

  /** The number of different cards is the number of opened ones. */
  lemma CardsAreOpened(xs: seq<int>, keep: int -> bool, group: int -> int, n: nat)
    requires forall x :: keep(x)
    requires CardsBelow(xs, group, n)
    ensures |Labels(xs, keep, group)| == Sum(n, Opened(xs, group))
  {
    OpenedIsLabels(xs, keep, group, n);
    forall k | k in Labels(xs, keep, group) ensures k < n {
      var i :| 0 <= i < |xs| && keep(xs[i]) && group(xs[i]) == k;
    }
    assert UpTo(Labels(xs, keep, group), n) == Labels(xs, keep, group);
  }

  lemma {:induction false} DevicesPerCard(xs: seq<int>, group: int -> int, n: nat, f: int -> int)
    requires CardsBelow(xs, group, n)
    requires forall g :: f(g) == Count(xs, OnCard(group, g))
    ensures Sum(n, f) == |xs|
  {
    if |xs| == 0 {
      SumZero(n, f);
    } else {
      var init, z := xs[..|xs| - 1], xs[|xs| - 1];
      var before := g => Count(init, OnCard(group, g));
      var one := g => if group(z) == g then 1 else 0;
      DevicesPerCard(init, group, n, before);
      SumSingle(n, one, group(z));
      SumAdd(n, before, one, f);
    }
  }

  // ----- the greedy count -----

  /** How many of the largest capacities it takes to cover need. */
  function GreedyCards(sorted: seq<int>, need: int): nat {
    if need <= 0 || |sorted| == 0 then 0
    else 1 + GreedyCards(sorted[..|sorted| - 1], need - sorted[|sorted| - 1])
  }

  ghost function Excess(t: int): int -> int { x => Max(0, x - t) }

  /** A threshold that shows why one card fewer cannot cover the need. */
  lemma {:induction false} GreedyThreshold(sorted: seq<int>, need: int) returns (t: int)
    requires NonDecreasing(sorted) && need > 0 && |sorted| > 0
    requires forall i | 0 <= i < |sorted| :: 0 <= sorted[i]
    ensures 0 <= t <= sorted[|sorted| - 1]
    ensures Multiple(GreedyCards(sorted, need) - 1, t) + Total(sorted, Excess(t)) < need
  {
    var init, last := sorted[..|sorted| - 1], sorted[|sorted| - 1];
    var k := GreedyCards(init, need - last);
    assert GreedyCards(sorted, need) == 1 + k;
    if k == 0 {
      t := last;
      forall i | 0 <= i < |sorted| ensures Excess(t)(sorted[i]) == 0 { assert sorted[i] <= last; }
      TotalZero(sorted, Excess(t));
    } else {
      t := GreedyThreshold(init, need - last);
      assert init[|init| - 1] <= last;
      assert t <= last;
      assert Max(0, last - t) == last - t;
      assert Excess(t)(last) == Max(0, last - t);
      assert Multiple(k, t) == Multiple(k - 1, t) + t;
    }
  }

  /** The capacities of the cards among the first n that are not open yet and still have devices. */
  function NewCapacities(counts: seq<int>, caps: seq<int>, n: nat): seq<int>
    requires n <= |counts| && n <= |caps|
  {
    if n == 0 then []
    else
      var before := NewCapacities(counts, caps, n - 1);
      if counts[n - 1] == 0 && caps[n - 1] > 0 then before + [caps[n - 1]] else before
  }

  /** What is left to place after filling the open ones among the first n cards. */
  function NeedAfter(counts: seq<int>, caps: seq<int>, need: int, n: nat): int
    requires n <= |counts| && n <= |caps|
  {
    if n == 0 then need else NeedAfter(counts, caps, need, n - 1) - if counts[n - 1] > 0 then caps[n - 1] else 0
  }

  /** The number of new cards the bound opens. */
  function NewCards(counts: seq<int>, caps: seq<int>, remaining: int): nat
    requires |counts| == |caps|
  {
    GreedyCards(Sorted(NewCapacities(counts, caps, |caps|)), NeedAfter(counts, caps, remaining, |caps|))
  }

  ghost predicate CountsCards(counts: seq<int>, xs: seq<int>, group: int -> int) {
    forall g | 0 <= g < |counts| :: counts[g] == Count(xs, OnCard(group, g))
  }

  /** Cards that the completion es opens and the chosen devices do not. */
  ghost function Fresh(counts: seq<int>, es: seq<int>, group: int -> int): int -> int {
    g => if 0 <= g < |counts| && counts[g] == 0 && Count(es, OnCard(group, g)) > 0 then 1 else 0
  }

  lemma FreshCards(chosen: seq<int>, es: seq<int>, group: int -> int, counts: seq<int>)
    requires CountsCards(counts, chosen, group)
    ensures Sum(|counts|, Opened(chosen + es, group)) == Sum(|counts|, Opened(chosen, group)) +
            Sum(|counts|, Fresh(counts, es, group))
  {
    forall g | 0 <= g < |counts|
      ensures Opened(chosen + es, group)(g) == Opened(chosen, group)(g) + Fresh(counts, es, group)(g) {
      CountConcat(chosen, es, OnCard(group, g));
    }
    SumAdd(|counts|, Opened(chosen, group), Fresh(counts, es, group), Opened(chosen + es, group));
  }

  ghost function FreshCapacity(counts: seq<int>, caps: seq<int>, es: seq<int>, group: int -> int): int -> int
    requires |counts| == |caps|
  {
    g => if 0 <= g < |caps| && Fresh(counts, es, group)(g) == 1 then caps[g] else 0
  }

  ghost function OpenCapacity(counts: seq<int>, caps: seq<int>): int -> int
    requires |counts| == |caps|
  {
    g => if 0 <= g < |caps| && counts[g] > 0 then caps[g] else 0
  }

  lemma {:induction false} NeedIsSum(counts: seq<int>, caps: seq<int>, need: int, n: nat)
    requires n <= |counts| == |caps|
    ensures NeedAfter(counts, caps, need, n) == need - Sum(n, OpenCapacity(counts, caps))
  {
    if n > 0 { NeedIsSum(counts, caps, need, n - 1); }
  }

  ghost function PerCard(xs: seq<int>, group: int -> int): int -> int {
    g => Count(xs, OnCard(group, g))
  }

  ghost function Room(counts: seq<int>, caps: seq<int>, es: seq<int>, group: int -> int): int -> int
    requires |counts| == |caps|
  {
    g => OpenCapacity(counts, caps)(g) + FreshCapacity(counts, caps, es, group)(g)
  }

  lemma CardHasRoom(chosen: seq<int>, es: seq<int>, rest: seq<int>, group: int -> int, counts: seq<int>, caps: seq<int>,
                    g: int)
    requires |counts| == |caps| && CountsCards(counts, chosen, group) && CountsCards(caps, rest, group)
    requires Ascending(rest) && SubList(es, rest) && 0 <= g < |caps|
    ensures PerCard(es, group)(g) <= Room(counts, caps, es, group)(g)
  {
    CountSubList(es, rest, OnCard(group, g));
    assert PerCard(es, group)(g) == Count(es, OnCard(group, g)) <= caps[g];
    assert counts[g] == 0 ==> OpenCapacity(counts, caps)(g) == 0;
    assert counts[g] == 0 && Count(es, OnCard(group, g)) > 0 ==> Fresh(counts, es, group)(g) == 1;
    assert Room(counts, caps, es, group)(g) == OpenCapacity(counts, caps)(g) +
      FreshCapacity(counts, caps, es, group)(g);
    assert counts[g] > 0 ==> OpenCapacity(counts, caps)(g) == caps[g];
    assert 0 <= FreshCapacity(counts, caps, es, group)(g);
  }

  /** The freshly opened cards hold what the open ones cannot. */
  lemma FreshCovers(chosen: seq<int>, es: seq<int>, rest: seq<int>, group: int -> int, counts: seq<int>, caps: seq<int>)
    requires |counts| == |caps| && CountsCards(counts, chosen, group) && CountsCards(caps, rest, group)
    requires Ascending(rest) && SubList(es, rest) && CardsBelow(es, group, |caps|)
    ensures NeedAfter(counts, caps, |es|, |caps|) <= Sum(|caps|, FreshCapacity(counts, caps, es, group))
  {
    var n := |caps|;
    DevicesPerCard(es, group, n, PerCard(es, group));
    NeedIsSum(counts, caps, |es|, n);
    SumAdd(n, OpenCapacity(counts, caps), FreshCapacity(counts, caps, es, group), Room(counts, caps, es, group));
    forall g | 0 <= g < n ensures PerCard(es, group)(g) <= Room(counts, caps, es, group)(g) {
      CardHasRoom(chosen, es, rest, group, counts, caps, g);
    }
    SumAtMost(n, PerCard(es, group), Room(counts, caps, es, group));
  }

  ghost function NewExcess(counts: seq<int>, caps: seq<int>, t: int): int -> int
    requires |counts| == |caps|
  {
    g => if 0 <= g < |caps| && counts[g] == 0 && caps[g] > 0 then Max(0, caps[g] - t) else 0
  }

  lemma {:induction false} NewExcessTotal(counts: seq<int>, caps: seq<int>, t: int, n: nat)
    requires n <= |counts| == |caps|
    requires forall g | 0 <= g < |counts| :: 0 <= counts[g]
    ensures Total(NewCapacities(counts, caps, n), Excess(t)) == Sum(n, NewExcess(counts, caps, t))
  {
    if n > 0 {
      NewExcessTotal(counts, caps, t, n - 1);
      var before := NewCapacities(counts, caps, n - 1);
      if counts[n - 1] == 0 && caps[n - 1] > 0 {
        assert (before + [caps[n - 1]])[..|before|] == before;
      }
    }
  }

  ghost function Times(f: int -> int, t: int): int -> int { g => if f(g) == 1 then t else 0 }

  lemma {:induction false} SumTimes(n: nat, f: int -> int, t: int)
    requires forall g | 0 <= g < n :: f(g) == 0 || f(g) == 1
    ensures 0 <= Sum(n, f) && Sum(n, Times(f, t)) == Multiple(Sum(n, f), t)
  {
    if n > 0 { SumTimes(n - 1, f, t); }
  }

  ghost function ThresholdCost(es: seq<int>, group: int -> int, counts: seq<int>, caps: seq<int>, t: int): int -> int
    requires |counts| == |caps|
  {
    g => Times(Fresh(counts, es, group), t)(g) + NewExcess(counts, caps, t)(g)
  }

  lemma FreshCardWithinThreshold(es: seq<int>, group: int -> int, counts: seq<int>, caps: seq<int>, t: int, g: int)
    requires |counts| == |caps| && 0 <= t && 0 <= g < |caps| && 0 <= counts[g] && 0 <= caps[g]
    ensures FreshCapacity(counts, caps, es, group)(g) <= ThresholdCost(es, group, counts, caps, t)(g)
  {
    var f := Fresh(counts, es, group)(g);
    assert FreshCapacity(counts, caps, es, group)(g) == if f == 1 then caps[g] else 0;
    assert Times(Fresh(counts, es, group), t)(g) == if f == 1 then t else 0;
    assert f == 1 ==> counts[g] == 0;
    assert 0 <= NewExcess(counts, caps, t)(g);
    assert counts[g] == 0 && caps[g] > 0 ==> caps[g] - t <= NewExcess(counts, caps, t)(g);
  }

  /** For every threshold, the capacity of the freshly opened cards is at most their number times
      the threshold plus the excess of all new cards over it. */
  lemma FreshWithinThreshold(es: seq<int>, group: int -> int, counts: seq<int>, caps: seq<int>, t: int)
    requires |counts| == |caps| && 0 <= t
    requires forall g | 0 <= g < |counts| :: 0 <= counts[g] && 0 <= caps[g]
    ensures 0 <= Sum(|caps|, Fresh(counts, es, group))
    ensures Sum(|caps|, FreshCapacity(counts, caps, es, group)) <=
            Multiple(Sum(|caps|, Fresh(counts, es, group)), t) + Total(NewCapacities(counts, caps, |caps|), Excess(t))
  {
    var n := |caps|;
    SumTimes(n, Fresh(counts, es, group), t);
    SumAdd(n, Times(Fresh(counts, es, group), t), NewExcess(counts, caps, t),
           ThresholdCost(es, group, counts, caps, t));
    forall g | 0 <= g < n
      ensures FreshCapacity(counts, caps, es, group)(g) <= ThresholdCost(es, group, counts, caps, t)(g) {
      FreshCardWithinThreshold(es, group, counts, caps, t, g);
    }
    SumAtMost(n, FreshCapacity(counts, caps, es, group), ThresholdCost(es, group, counts, caps, t));
    NewExcessTotal(counts, caps, t, n);
  }

  lemma {:induction false} NewCapacitiesPositive(counts: seq<int>, caps: seq<int>, n: nat)
    requires n <= |counts| == |caps|
    ensures forall i | 0 <= i < |NewCapacities(counts, caps, n)| :: 0 < NewCapacities(counts, caps, n)[i]
  {
    if n > 0 { NewCapacitiesPositive(counts, caps, n - 1); }
  }

  lemma SortedPositive(xs: seq<int>)
    requires forall i | 0 <= i < |xs| :: 0 < xs[i]
    ensures forall i | 0 <= i < |Sorted(xs)| :: 0 < Sorted(xs)[i]
  {
    RearrangedWithin(Sorted(xs), xs);
    forall i | 0 <= i < |Sorted(xs)| ensures 0 < Sorted(xs)[i] {
      assert Sorted(xs)[i] in xs;
      var j :| 0 <= j < |xs| && xs[j] == Sorted(xs)[i];
    }
  }

  /** No completion opens fewer new cards than the greedy packing. */
  lemma GreedyIsMinimal(chosen: seq<int>, es: seq<int>, rest: seq<int>, group: int -> int, counts: seq<int>,
                        caps: seq<int>)
    requires |counts| == |caps| && CountsCards(counts, chosen, group) && CountsCards(caps, rest, group)
    requires Ascending(rest) && SubList(es, rest) && CardsBelow(es, group, |caps|)
    ensures NewCards(counts, caps, |es|) <= Sum(|caps|, Fresh(counts, es, group))
  {
    var need, newly := NeedAfter(counts, caps, |es|, |caps|), Sum(|caps|, Fresh(counts, es, group));
    var free := NewCapacities(counts, caps, |caps|);
    SumNonNegative(|caps|, Fresh(counts, es, group));
    forall t | 0 <= t ensures need <= Multiple(newly, t) + Total(free, Excess(t)) {
      FreshCovers(chosen, es, rest, group, counts, caps);
      FreshWithinThreshold(es, group, counts, caps, t);
    }
    NewCapacitiesPositive(counts, caps, |caps|);
    GreedyAtMost(free, need, newly);
  }

  lemma GreedyWitness(free: seq<int>, need: int) returns (t: int)
    requires GreedyCards(Sorted(free), need) > 0 && forall i | 0 <= i < |free| :: 0 < free[i]
    ensures 0 <= t && Multiple(GreedyCards(Sorted(free), need) - 1, t) + Total(free, Excess(t)) < need
  {
    SortedPositive(free);
    t := GreedyThreshold(Sorted(free), need);
    TotalRearranged(Sorted(free), free, Excess(t));
  }

  /** If for every threshold t the need is at most m times t plus the excess over t, then m cards do. */
  lemma GreedyAtMost(free: seq<int>, need: int, m: nat)
    requires forall i | 0 <= i < |free| :: 0 < free[i]
    requires forall t | 0 <= t :: need <= Multiple(m, t) + Total(free, Excess(t))
    ensures GreedyCards(Sorted(free), need) <= m
  {
    hide GreedyCards, Total, Sorted, Multiple;
    var k := GreedyCards(Sorted(free), need);
    if k > m {
      var t := GreedyWitness(free, need);
      assert need <= Multiple(m, t) + Total(free, Excess(t));
      MultipleMonotone(m, k - 1, t);
    }
  }

  /** The cards of a completion: at least those of the chosen devices and the greedy number of new ones. */
  lemma CardBound(chosen: seq<int>, es: seq<int>, rest: seq<int>, keep: int -> bool, group: int -> int,
                  counts: seq<int>, caps: seq<int>)
    requires forall x :: keep(x)
    requires |counts| == |caps| && CountsCards(counts, chosen, group) && CountsCards(caps, rest, group)
    requires Ascending(rest) && SubList(es, rest)
    requires CardsBelow(chosen, group, |caps|) && CardsBelow(es, group, |caps|)
    ensures |Labels(chosen, keep, group)| + NewCards(counts, caps, |es|) <= |Labels(chosen + es, keep, group)|
  {
    assert CardsBelow(chosen + es, group, |caps|);
    CardsAreOpened(chosen, keep, group, |caps|);
    CardsAreOpened(chosen + es, keep, group, |caps|);
    FreshCards(chosen, es, group, counts);
    GreedyIsMinimal(chosen, es, rest, group, counts, caps);
  }
}
