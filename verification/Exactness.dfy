/**
 The combinatorial parts of the bound are exact: the PCI placement is the cost of some set of the
 remaining candidates, and the greedy number of new cards is opened by some completion.
 */
module Exactness {
  import opened Ordering
  import opened Sums
  import opened Pairs
  import opened PCITopology
  import opened Subtrees
  import opened ForestKnapsack
  import opened Placement
  import opened Score
  import opened Allocator
  import opened CardPacking
  import opened Bounds
  import opened Lists

  // ----- the PCI placement -----

  /** Candidates with a known path that bring the located devices to exactly known. */
  ghost predicate KnownSet(a: TopologyAllocator, chosen: seq<int>, rest: seq<int>, es: seq<int>, known: int) {
    && SubList(es, rest)
    && (forall i | 0 <= i < |es| :: a.Attr().hasPCI(es[i]))
    && Count(chosen + es, a.Attr().hasPCI) == known
  }

  ghost predicate Costs(c: PCIPlacementCost, a: TopologyAllocator, xs: seq<int>) {
    PairSum(xs, a.Attr().Separate()) == c.separateRoots && PairSum(xs, a.Attr().Hops()) == c.totalDistance
  }

  /** The least (pairs under separate roots, hops) over those sets, and invalid if there is none. */
  ghost predicate LeastPlacement(c: PCIPlacementCost, a: TopologyAllocator, chosen: seq<int>, rest: seq<int>,
                                 known: int) {
    && (forall es | KnownSet(a, chosen, rest, es, known) ::
          AtMostPair(c, PairSum(chosen + es, a.Attr().Separate()), PairSum(chosen + es, a.Attr().Hops())))
    && (c.valid ==> exists es :: KnownSet(a, chosen, rest, es, known) && Costs(c, a, chosen + es))
  }

  lemma PlacementIsLeast(a: TopologyAllocator, paths: seq<Path>, chosen: seq<int>, rest: seq<int>, c: PCIPlacementCost,
                         known: int)
    requires SearchState(a, paths, chosen, rest)
    requires BestPlacement(c, paths, a.tree.roots, SelectionOf(|paths|, chosen, a.Place()),
                           SelectionOf(|paths|, rest, a.Place()), known)
    ensures LeastPlacement(c, a, chosen, rest, known)
  {
    hide PairSum, Count;
    forall es | KnownSet(a, chosen, rest, es, known)
      ensures AtMostPair(c, PairSum(chosen + es, a.Attr().Separate()), PairSum(chosen + es, a.Attr().Hops()))
    {
      KnownCount(a, chosen + es);
      PlacementBound(a, paths, chosen, rest, |es|, es, c, known);
    }
    if c.valid {
      var es := PlacementAttained(a, paths, chosen, rest, c, known);
    }
  }

  lemma PlacementAttained(a: TopologyAllocator, paths: seq<Path>, chosen: seq<int>, rest: seq<int>, c: PCIPlacementCost,
                          known: int)
    returns (es: seq<int>)
    requires SearchState(a, paths, chosen, rest)
    requires PlacementReached(c, known, paths, a.tree.roots, |a.tree.roots|,
                              SelectionOf(|paths|, chosen, a.Place()), SelectionOf(|paths|, rest, a.Place()))
    ensures KnownSet(a, chosen, rest, es, known)
    ensures Costs(c, a, chosen + es)
  {
    hide PairSum, Count;
    var n, place, roots := |paths|, a.Place(), a.tree.roots;
    var s :| Allowed(s, SelectionOf(n, chosen, place), SelectionOf(n, rest, place)) &&
      RootsTaken(paths, roots, s, |roots|) == known &&
      RootsCross(paths, roots, s, |roots|) == c.separateRoots &&
        RootsInner(paths, roots, s, |roots|) == c.totalDistance;
    es := AllowedIsRealised(n, chosen, rest, place, s);
    CompletionFacts(a, paths, chosen, rest, |es|, es);
    SelectionCost(a, paths, chosen + es);
    KnownCount(a, chosen + es);
    forall i | 0 <= i < |es| ensures a.Attr().hasPCI(es[i]) {
      assert a.devices[es[i]].hasPCI <==> 0 <= place(es[i]) < n;
    }
  }

  // ----- card packing -----

  lemma LastOut(xs: seq<int>)
    requires |xs| > 0
    ensures multiset(xs[..|xs| - 1]) == multiset(xs) - multiset{xs[|xs| - 1]}
  {
    assert xs == xs[..|xs| - 1] + [xs[|xs| - 1]];
  }

  lemma LargestElement(xs: seq<int>, ys: seq<int>)
    requires NonDecreasing(ys) && Rearranged(xs, ys) && |xs| > 0
    ensures |ys| > 0 && xs[|xs| - 1] <= ys[|ys| - 1]
  {
    var k := MatchLast(xs, ys);
    assert ys[k] <= ys[|ys| - 1];
  }

  /** Non-decreasing lists with the same elements are the same list. */
  lemma {:induction false} SortedIsUnique(xs: seq<int>, ys: seq<int>)
    requires NonDecreasing(xs) && NonDecreasing(ys) && Rearranged(xs, ys)
    ensures xs == ys
  {
    if |xs| == 0 {
      RearrangedEmpty(xs, ys);
    } else {
      LargestElement(xs, ys);
      LargestElement(ys, xs);
      LastOut(xs);
      LastOut(ys);
      SortedIsUnique(xs[..|xs| - 1], ys[..|ys| - 1]);
      assert xs == xs[..|xs| - 1] + [xs[|xs| - 1]] && ys == ys[..|ys| - 1] + [ys[|ys| - 1]];
    }
  }

  ghost function Chosen(caps: seq<int>, cards: set<int>): int -> int {
    g => if 0 <= g < |caps| && g in cards then caps[g] else 0
  }

  ghost predicate Unopened(counts: seq<int>, caps: seq<int>, cards: set<int>)
    requires |counts| == |caps|
  {
    forall g | g in cards :: 0 <= g < |caps| && counts[g] == 0 && caps[g] > 0
  }

  lemma {:induction false} CapacityOfCard(counts: seq<int>, caps: seq<int>, n: nat, c: int) returns (g: int)
    requires n <= |counts| == |caps| && c in NewCapacities(counts, caps, n)
    ensures 0 <= g < n && counts[g] == 0 && caps[g] == c && c > 0
  {
    var before := NewCapacities(counts, caps, n - 1);
    if counts[n - 1] == 0 && caps[n - 1] > 0 && caps[n - 1] == c {
      g := n - 1;
    } else {
      g := CapacityOfCard(counts, caps, n - 1, c);
    }
  }

  ghost function Identity(): int -> int { x => x }

  lemma CapacitiesStep(counts: seq<int>, caps: seq<int>, n: nat)
    requires 0 < n <= |counts| == |caps|
    ensures var before := NewCapacities(counts, caps, n - 1);
            NewCapacities(counts, caps, n) == if counts[n - 1] == 0 && caps[n - 1] > 0 then before + [caps[n - 1]]
              else before
  {}

  /** Taking a card away takes its capacity out of the list. */
  lemma {:induction false} WithoutCard(counts: seq<int>, caps: seq<int>, g: int, n: nat)
    requires n <= |counts| == |caps| && 0 <= g < n && counts[g] == 0 && caps[g] > 0
    ensures Rearranged(NewCapacities(counts, caps, n), NewCapacities(counts, caps[g := 0], n) + [caps[g]])
  {
    hide Rearranged, NewCapacities;
    CapacitiesStep(counts, caps, n);
    CapacitiesStep(counts, caps[g := 0], n);
    var all, rest := NewCapacities(counts, caps, n - 1), NewCapacities(counts, caps[g := 0], n - 1);
    if g == n - 1 {
      SameBelow(counts, caps, g, n - 1);
      SameList(all + [caps[g]]);
    } else {
      WithoutCard(counts, caps, g, n - 1);
      if counts[n - 1] == 0 && caps[n - 1] > 0 {
        assert NewCapacities(counts, caps[g := 0], n) == rest + [caps[n - 1]];
        Exchange(all, rest, caps[g], caps[n - 1]);
      }
    }
  }

  lemma SameList(xs: seq<int>)
    ensures Rearranged(xs, xs)
  {}

  lemma {:induction false} SameBelow(counts: seq<int>, caps: seq<int>, g: int, n: nat)
    requires n <= |counts| == |caps| && n <= g < |caps|
    ensures NewCapacities(counts, caps, n) == NewCapacities(counts, caps[g := 0], n)
  {
    if n > 0 { SameBelow(counts, caps, g, n - 1); }
  }

  lemma Exchange(xs: seq<int>, ys: seq<int>, x: int, y: int)
    requires Rearranged(xs, ys + [x])
    ensures Rearranged(xs + [y], ys + [y] + [x])
  {}

  lemma GreedyStep(sorted: seq<int>, need: int)
    requires |sorted| > 0 && need > 0
    ensures GreedyCards(sorted, need) == 1 + GreedyCards(sorted[..|sorted| - 1], need - sorted[|sorted| - 1])
  {}

  lemma WithoutLargest(counts: seq<int>, caps: seq<int>, need: int) returns (g: int)
    requires |counts| == |caps| && |NewCapacities(counts, caps, |caps|)| > 0 && need > 0
    ensures 0 <= g < |caps| && counts[g] == 0 && caps[g] > 0
    ensures var free, free' := NewCapacities(counts, caps, |caps|), NewCapacities(counts, caps[g := 0], |caps|);
            var sorted := Sorted(free);
            |free'| == |free| - 1 && sorted[|free'|] == caps[g] && Sorted(free') == sorted[..|free'|] &&
            Total(free, Identity()) == Total(free', Identity()) + caps[g] &&
            GreedyCards(sorted, need) == 1 + GreedyCards(Sorted(free'), need - caps[g])
  {
    hide NewCapacities, GreedyCards, Sorted;
    var free := NewCapacities(counts, caps, |caps|);
    var sorted := Sorted(free);
    var k := MatchLast(sorted, free);
    g := CapacityOfCard(counts, caps, |caps|, free[k]);
    WithoutCard(counts, caps, g, |caps|);
    var free' := NewCapacities(counts, caps[g := 0], |caps|);
    RemovedLast(sorted, free', caps[g]);
    GreedyStep(sorted, need);
    TotalRearranged(free, free' + [caps[g]], Identity());
    assert (free' + [caps[g]])[..|free'|] == free';
  }

  lemma FrontNonDecreasing(xs: seq<int>)
    requires NonDecreasing(xs) && |xs| > 0
    ensures NonDecreasing(xs[..|xs| - 1])
  {}

  lemma RemovedLast(sorted: seq<int>, others: seq<int>, last: int)
    requires NonDecreasing(sorted) && Rearranged(sorted, others + [last]) && |sorted| > 0 &&
             sorted[|sorted| - 1] == last
    ensures |others| == |sorted| - 1 && Sorted(others) == sorted[..|sorted| - 1]
  {
    hide Sorted, NonDecreasing;
    LastOut(sorted);
    LastOut(others + [last]);
    assert (others + [last])[..|others|] == others;
    assert |sorted| == |multiset(sorted)| == |multiset(others + [last])| == |others| + 1;
    FrontNonDecreasing(sorted);
    SortedIsUnique(sorted[..|sorted| - 1], Sorted(others));
  }

  lemma CardAdded(caps: seq<int>, cards: set<int>, g: int)
    requires 0 <= g < |caps| && g !in cards
    ensures Sum(|caps|, Chosen(caps, cards + {g})) == Sum(|caps|, Chosen(caps[g := 0], cards)) + caps[g]
  {
    var one := h => if h == g then caps[g] else 0;
    SumSingle(|caps|, one, g);
    SumAdd(|caps|, Chosen(caps[g := 0], cards), one, Chosen(caps, cards + {g}));
  }

  lemma NothingNeeded(counts: seq<int>, caps: seq<int>, need: int)
    requires |counts| == |caps| && need <= Total(NewCapacities(counts, caps, |caps|), Identity())
    requires need <= 0 || |NewCapacities(counts, caps, |caps|)| == 0
    ensures need <= Sum(|caps|, Chosen(caps, {}))
    ensures GreedyCards(Sorted(NewCapacities(counts, caps, |caps|)), need) == 0
  {
    hide NewCapacities, Sorted;
    SumZero(|caps|, Chosen(caps, {}));
  }

  /** The greedy number of unopened cards covers the need whenever all of them together do. */
  lemma {:induction false} GreedyCardSet(counts: seq<int>, caps: seq<int>, need: int) returns (cards: set<int>)
    requires |counts| == |caps| && need <= Total(NewCapacities(counts, caps, |caps|), Identity())
    ensures Unopened(counts, caps, cards)
    ensures |cards| == GreedyCards(Sorted(NewCapacities(counts, caps, |caps|)), need)
    ensures need <= Sum(|caps|, Chosen(caps, cards))
    decreases |NewCapacities(counts, caps, |caps|)|
  {
    hide NewCapacities, Sorted, Total, Sum, GreedyCards, Chosen;
    var free := NewCapacities(counts, caps, |caps|);
    if need <= 0 || |free| == 0 {
      cards := {};
      NothingNeeded(counts, caps, need);
    } else {
      var g := WithoutLargest(counts, caps, need);
      var others := GreedyCardSet(counts, caps[g := 0], need - caps[g]);
      CardAdded(caps, others, g);
      cards := others + {g};
    }
  }

  /** All candidates fit on the open and the unopened cards. */
  lemma RestFits(counts: seq<int>, rest: seq<int>, group: int -> int, caps: seq<int>, remaining: nat)
    requires |counts| == |caps| && CountsCards(caps, rest, group) && CardsBelow(rest, group, |caps|) &&
             remaining <= |rest|
    requires forall g | 0 <= g < |counts| :: 0 <= counts[g]
    ensures NeedAfter(counts, caps, remaining, |caps|) <= Total(NewCapacities(counts, caps, |caps|), Identity())
  {
    hide NewCapacities, Total, Sum, Count, NeedAfter;
    var n, free := |caps|, NewCapacities(counts, caps, |caps|);
    NeedIsSum(counts, caps, remaining, n);
    NewExcessTotal(counts, caps, 0, n);
    NewCapacitiesPositive(counts, caps, n);
    forall i | 0 <= i < |free| ensures Identity()(free[i]) == Excess(0)(free[i]) {
      assert 0 < NewCapacities(counts, caps, n)[i];
      assert Excess(0)(free[i]) == Max(0, free[i]);
    }
    TotalExt(free, Identity(), Excess(0));
    DevicesPerCard(rest, group, n, PerCard(rest, group));
    forall g | 0 <= g < n
      ensures PerCard(rest, group)(g) == OpenCapacity(counts, caps)(g) + NewExcess(counts, caps, 0)(g)
    {
      assert caps[g] == Count(rest, OnCard(group, g));
    }
    SumAdd(n, OpenCapacity(counts, caps), NewExcess(counts, caps, 0), PerCard(rest, group));
  }

  /** The devices on open cards and on the given ones. */
  ghost function Usable(counts: seq<int>, cards: set<int>, group: int -> int): int -> bool {
    x => (0 <= group(x) < |counts| && counts[group(x)] > 0) || group(x) in cards
  }

  lemma {:induction false} CountFiltered(xs: seq<int>, p: int -> bool, q: int -> bool)
    requires forall x | q(x) :: p(x)
    ensures Count(Filter(xs, p), q) == Count(xs, q)
  {
    if |xs| > 0 {
      var init, z := xs[..|xs| - 1], xs[|xs| - 1];
      CountFiltered(init, p, q);
      assert (Filter(init, p) + [z])[..|Filter(init, p)|] == Filter(init, p);
    }
  }

  /** Those devices suffice. */
  lemma UsableSuffice(counts: seq<int>, rest: seq<int>, group: int -> int, caps: seq<int>, cards: set<int>,
                      remaining: nat)
    requires |counts| == |caps| && CountsCards(caps, rest, group) && CardsBelow(rest, group, |caps|)
    requires Unopened(counts, caps, cards)
    requires NeedAfter(counts, caps, remaining, |caps|) <= Sum(|caps|, Chosen(caps, cards))
    ensures remaining <= |Filter(rest, Usable(counts, cards, group))|
  {
    hide Total, Sum, Count, NeedAfter, Filter;
    var n, p := |caps|, Usable(counts, cards, group);
    var usable := Filter(rest, p);
    FilterFacts(rest, p);
    assert CardsBelow(usable, group, n) by {
      forall i | 0 <= i < |usable| ensures 0 <= group(usable[i]) < n {
        var x := usable[i];
        assert x in rest;
      }
    }
    DevicesPerCard(usable, group, n, PerCard(usable, group));
    NeedIsSum(counts, caps, remaining, n);
    var room := g => OpenCapacity(counts, caps)(g) + Chosen(caps, cards)(g);
    SumAdd(n, OpenCapacity(counts, caps), Chosen(caps, cards), room);
    forall g | 0 <= g < n ensures room(g) <= PerCard(usable, group)(g) {
      UsableOnCard(counts, rest, group, caps, cards, g);
    }
    SumAtMost(n, room, PerCard(usable, group));
  }

  lemma UsableOnCard(counts: seq<int>, rest: seq<int>, group: int -> int, caps: seq<int>, cards: set<int>, g: int)
    requires |counts| == |caps| && CountsCards(caps, rest, group) && 0 <= g < |caps| && Unopened(counts, caps, cards)
    ensures OpenCapacity(counts, caps)(g) + Chosen(caps, cards)(g) <= Count(Filter(rest, Usable(counts, cards, group)),
            OnCard(group, g))
  {
    hide Count, Filter;
    if counts[g] > 0 || g in cards {
      CountFiltered(rest, Usable(counts, cards, group), OnCard(group, g));
      assert caps[g] == Count(rest, OnCard(group, g));
    }
  }

  lemma {:induction false} OnlyCards(n: nat, f: int -> int, cards: set<int>)
    requires forall g | 0 <= g < n :: f(g) == 0 || (f(g) == 1 && g in cards)
    ensures Sum(n, f) <= |cards|
  {
    if n > 0 {
      if f(n - 1) == 0 { OnlyCards(n - 1, f, cards); } else { OnlyCards(n - 1, f, cards - {n - 1}); }
    }
  }

  /** Some completion opens no more new cards than the greedy packing. */
  lemma GreedyIsAttained(chosen: seq<int>, rest: seq<int>, group: int -> int, counts: seq<int>, caps: seq<int>,
                         remaining: nat)
    returns (es: seq<int>)
    requires |counts| == |caps| && CountsCards(counts, chosen, group) && CountsCards(caps, rest, group)
    requires Ascending(rest) && CardsBelow(rest, group, |caps|) && remaining <= |rest|
    ensures Completion(rest, remaining, es)
    ensures Sum(|caps|, Fresh(counts, es, group)) <= NewCards(counts, caps, remaining)
  {
    hide Total, Sum, Count, NeedAfter, Filter, NewCapacities, GreedyCards, Sorted;
    forall g | 0 <= g < |counts| ensures 0 <= counts[g] { assert counts[g] == Count(chosen, OnCard(group, g)); }
    RestFits(counts, rest, group, caps, remaining);
    var cards := GreedyCardSet(counts, caps, NeedAfter(counts, caps, remaining, |caps|));
    var p := Usable(counts, cards, group);
    UsableSuffice(counts, rest, group, caps, cards, remaining);
    FilterFacts(rest, p);
    es := Filter(rest, p)[..remaining];
    forall g | 0 <= g < |caps|
      ensures Fresh(counts, es, group)(g) == 0 || (Fresh(counts, es, group)(g) == 1 && g in cards) {
      CountPositive(es, OnCard(group, g));
    }
    OnlyCards(|caps|, Fresh(counts, es, group), cards);
  }

  /** The greedy count is exactly the least number of cards any completion adds. */
  lemma GreedyIsExact(chosen: seq<int>, rest: seq<int>, keep: int -> bool, group: int -> int, counts: seq<int>,
                      caps: seq<int>, remaining: nat)
    requires forall x :: keep(x)
    requires |counts| == |caps| && CountsCards(counts, chosen, group) && CountsCards(caps, rest, group)
    requires Ascending(rest) && remaining <= |rest|
    requires CardsBelow(chosen, group, |caps|) && CardsBelow(rest, group, |caps|)
    ensures forall es | Completion(rest, remaining, es) ::
              |Labels(chosen, keep, group)| + NewCards(counts, caps, remaining) <= |Labels(chosen + es, keep, group)|
    ensures exists es :: Completion(rest, remaining, es) &&
              |Labels(chosen, keep, group)| + NewCards(counts, caps, remaining) == |Labels(chosen + es, keep, group)|
  {
    hide Sum, Count, NewCards, Labels;
    forall es | Completion(rest, remaining, es)
      ensures |Labels(chosen, keep, group)| + NewCards(counts, caps, remaining) <= |Labels(chosen + es, keep, group)|
    {
      TakenBelow(es, rest, group, |caps|);
      CardBound(chosen, es, rest, keep, group, counts, caps);
    }
    var es := GreedyIsAttained(chosen, rest, group, counts, caps, remaining);
    TakenBelow(es, rest, group, |caps|);
    assert CardsBelow(chosen + es, group, |caps|);
    CardsAreOpened(chosen, keep, group, |caps|);
    CardsAreOpened(chosen + es, keep, group, |caps|);
    FreshCards(chosen, es, group, counts);
  }

  lemma TakenBelow(es: seq<int>, rest: seq<int>, group: int -> int, n: nat)
    requires Within(es, rest) && CardsBelow(rest, group, n)
    ensures CardsBelow(es, group, n)
  {}
}
