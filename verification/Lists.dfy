/**
 Lists without repeats: removing duplicates, filtering, equality as sets, and the order in which
 sorted lists of equal length compare.
 */
module Lists {
  import opened Ordering
  import opened Sums
  import opened Pairs
  import opened Score

  /** Keeps the first occurrence of every element. */
  ghost function FirstOccurrences(xs: seq<int>): seq<int> {
    if |xs| == 0 then []
    else
      var before, z := FirstOccurrences(xs[..|xs| - 1]), xs[|xs| - 1];
      if z in before then before else before + [z]
  }

  lemma {:induction false} FirstOccurrencesFacts(xs: seq<int>)
    ensures Distinct(FirstOccurrences(xs))
    ensures Within(FirstOccurrences(xs), xs) && Within(xs, FirstOccurrences(xs))
  {
    if |xs| > 0 {
      var init, z := xs[..|xs| - 1], xs[|xs| - 1];
      var before := FirstOccurrences(init);
      FirstOccurrencesFacts(init);
      assert xs == init + [z];
      forall i | 0 <= i < |xs| ensures xs[i] in FirstOccurrences(xs) {
        if i < |init| { assert init[i] in before; }
      }
    }
  }

  /** The elements keep the order in which they are first mentioned. */
  lemma {:induction false} FirstOccurrencesInOrder(xs: seq<int>, i: nat, j: nat) returns (k: nat)
    requires i < j < |FirstOccurrences(xs)|
    ensures k < |xs| && xs[k] == FirstOccurrences(xs)[i] && FirstOccurrences(xs)[j] !in xs[..k + 1]
  {
    var init, z := xs[..|xs| - 1], xs[|xs| - 1];
    var before := FirstOccurrences(init);
    FirstOccurrencesFacts(init);
    if j < |before| {
      k := FirstOccurrencesInOrder(init, i, j);
      assert xs[..k + 1] == init[..k + 1];
    } else {
      var x := before[i];
      assert x in init;
      k :| 0 <= k < |init| && init[k] == x;
      var seen := xs[..k + 1];
      forall m | 0 <= m < |seen| ensures seen[m] != z { assert init[m] in before; }
    }
  }

  ghost function Filter(xs: seq<int>, p: int -> bool): seq<int> {
    if |xs| == 0 then []
    else
      var init, z := xs[..|xs| - 1], xs[|xs| - 1];
      if p(z) then Filter(init, p) + [z] else Filter(init, p)
  }

  lemma {:induction false} FilterElement(xs: seq<int>, p: int -> bool, x: int)
    ensures x in Filter(xs, p) <==> x in xs && p(x)
  {
    if |xs| > 0 {
      var init, z := xs[..|xs| - 1], xs[|xs| - 1];
      FilterElement(init, p, x);
      assert xs == init + [z];
    }
  }

  lemma {:induction false} FilterAscending(xs: seq<int>, p: int -> bool)
    requires Ascending(xs)
    ensures Ascending(Filter(xs, p))
  {
    if |xs| > 0 {
      var init, z := xs[..|xs| - 1], xs[|xs| - 1];
      FilterAscending(init, p);
      var f := Filter(init, p);
      forall i | 0 <= i < |f| ensures f[i] < z {
        var x := f[i];
        FilterElement(init, p, x);
        var k :| 0 <= k < |init| && init[k] == x;
        assert xs[k] < xs[|xs| - 1];
      }
    }
  }

  /** Filtering keeps exactly the elements with the property, in order. */
  lemma FilterFacts(xs: seq<int>, p: int -> bool)
    ensures Within(Filter(xs, p), xs)
    ensures forall i | 0 <= i < |Filter(xs, p)| :: p(Filter(xs, p)[i])
    ensures forall i | 0 <= i < |xs| && p(xs[i]) :: xs[i] in Filter(xs, p)
    ensures Ascending(xs) ==> Ascending(Filter(xs, p))
  {
    hide Filter, Ascending;
    forall x { FilterElement(xs, p, x); }
    if Ascending(xs) { FilterAscending(xs, p); }
    forall i | 0 <= i < |Filter(xs, p)| ensures Filter(xs, p)[i] in xs && p(Filter(xs, p)[i]) {
      var x := Filter(xs, p)[i];
      assert x in Filter(xs, p);
    }
  }

  ghost function Elements(xs: seq<int>): set<int> {
    set i | 0 <= i < |xs| :: xs[i]
  }

  lemma ElementsOf(xs: seq<int>, x: int)
    ensures x in Elements(xs) <==> x in xs
  {}

  lemma {:induction false} DistinctSize(xs: seq<int>)
    requires Distinct(xs)
    ensures |Elements(xs)| == |xs|
  {
    if |xs| == 0 {
      assert Elements(xs) == {};
    } else {
      var init, z := xs[..|xs| - 1], xs[|xs| - 1];
      DistinctSize(init);
      forall x ensures x in Elements(xs) <==> x in Elements(init) + {z} {
        ElementsOf(xs, x);
        ElementsOf(init, x);
        assert xs == init + [z];
      }
      ElementsOf(init, z);
      assert Elements(xs) == Elements(init) + {z};
    }
  }

  /** A duplicate-free list inside another of the same length has the same elements. */
  lemma SameSizeSameElements(xs: seq<int>, ys: seq<int>)
    requires Distinct(xs) && Distinct(ys) && Within(xs, ys) && |ys| <= |xs|
    ensures Within(ys, xs) && |xs| == |ys|
  {
    DistinctSize(xs);
    DistinctSize(ys);
    forall x | x in Elements(xs) ensures x in Elements(ys) {
      ElementsOf(xs, x);
      var i :| 0 <= i < |xs| && xs[i] == x;
      assert xs[i] in ys;
      ElementsOf(ys, x);
    }
    assert Elements(xs) <= Elements(ys);
    SubsetSize(Elements(xs), Elements(ys));
    forall i | 0 <= i < |ys| ensures ys[i] in xs {
      ElementsOf(xs, ys[i]);
      ElementsOf(ys, ys[i]);
    }
  }

  /** The elements of a finite set in order. */
  lemma {:induction false} SortedListing(s: set<int>) returns (xs: seq<int>)
    ensures Ascending(xs) && Elements(xs) == s
    decreases |s|
  {
    hide Sorted, Elements;
    if x :| x in s {
      var others := SortedListing(s - {x});
      var all := others + [x];
      forall i | 0 <= i < |others| ensures others[i] != x {
        var y := others[i];
        ElementsOf(others, y);
      }
      xs := Sorted(all);
      DistinctSorted(all);
      SameElementsSorted(all);
      forall y ensures y in Elements(xs) <==> y in s {
        ElementsOf(xs, y);
        ElementsOf(others, y);
      }
      assert Elements(xs) == s;
    } else {
      xs := [];
      forall x ensures x in Elements(xs) <==> x in s { ElementsOf(xs, x); }
      assert Elements(xs) == s;
    }
  }

  lemma SubsetSize(s: set<int>, t: set<int>)
    requires s <= t
    ensures |s| <= |t|
    ensures |t| <= |s| ==> s == t
  {
    assert t == s + (t - s);
    assert |t| == |s| + |t - s|;
  }

  /** Duplicate-free lists with the same elements are rearrangements of each other. */
  lemma SameElementsRearranged(xs: seq<int>, ys: seq<int>)
    requires Distinct(xs) && Distinct(ys) && Within(xs, ys) && Within(ys, xs)
    ensures Rearranged(xs, ys)
  {
    forall x ensures multiset(xs)[x] == multiset(ys)[x] {
      DistinctCountsOnce(xs, x);
      DistinctCountsOnce(ys, x);
      if x in xs {
        var i :| 0 <= i < |xs| && xs[i] == x;
        assert xs[i] in ys;
      }
      if x in ys {
        var i :| 0 <= i < |ys| && ys[i] == x;
        assert ys[i] in xs;
      }
      assert x in xs <==> x in multiset(xs);
      assert x in ys <==> x in multiset(ys);
    }
  }

  lemma AscendingDistinct(xs: seq<int>)
    requires Ascending(xs)
    ensures Distinct(xs)
  {}

  lemma SortedFacts(xs: seq<int>)
    requires Distinct(xs)
    ensures Ascending(Sorted(xs)) && Rearranged(Sorted(xs), xs)
    ensures Within(Sorted(xs), xs) && Within(xs, Sorted(xs))
  {
    DistinctSorted(xs);
    RearrangedWithin(Sorted(xs), xs);
    RearrangedWithin(xs, Sorted(xs));
  }

  // ----- comparing sorted lists -----

  lemma {:induction false} CompareFacts(xs: seq<int>, ys: seq<int>)
    ensures Compare(xs, ys) == -Compare(ys, xs)
    ensures Compare(xs, ys) == 0 <==> xs == ys
    ensures -1 <= Compare(xs, ys) <= 1
  {
    if |xs| > 0 && |ys| > 0 {
      CompareFacts(xs[1..], ys[1..]);
      if xs[0] == ys[0] {
        assert xs == [xs[0]] + xs[1..] && ys == [ys[0]] + ys[1..];
      }
    }
  }

  /** x is the smallest element in which the two lists differ, and it is in xs. */
  ghost predicate FirstDifference(xs: seq<int>, ys: seq<int>, x: int) {
    x in xs && x !in ys && forall y | y < x :: y in xs <==> y in ys
  }

  lemma FirstIsLeast(xs: seq<int>, y: int)
    requires Ascending(xs) && y in xs
    ensures xs[0] <= y
  {}

  lemma {:induction false} SmallerHasFirst(xs: seq<int>, ys: seq<int>) returns (x: int)
    requires Ascending(xs) && Ascending(ys) && |xs| == |ys| && Compare(xs, ys) < 0
    ensures FirstDifference(xs, ys, x)
    ensures xs[0] <= x
  {
    var xt, yt := xs[1..], ys[1..];
    assert xs == [xs[0]] + xt && ys == [ys[0]] + yt;
    if xs[0] < ys[0] {
      x := xs[0];
      forall y | y <= x ensures y !in ys {
        if y in ys { FirstIsLeast(ys, y); }
      }
      forall y | y < x ensures y !in xs {
        if y in xs { FirstIsLeast(xs, y); }
      }
    } else {
      x := SmallerHasFirst(xt, yt);
      assert x in xs;
      assert xt[0] == xs[1] > xs[0];
      forall y | y < x ensures y in xs <==> y in ys {
        assert y in xs <==> y == xs[0] || y in xt;
        assert y in ys <==> y == ys[0] || y in yt;
      }
    }
  }

  /** The list with the first difference is the smaller one. */
  lemma FirstIsSmaller(xs: seq<int>, ys: seq<int>, x: int)
    requires Ascending(xs) && Ascending(ys) && |xs| == |ys| && FirstDifference(xs, ys, x)
    ensures Compare(xs, ys) < 0
  {
    CompareFacts(xs, ys);
    if Compare(xs, ys) > 0 {
      var y := SmallerHasFirst(ys, xs);
      assert false;
    }
  }

  /** Adding the same elements to two lists does not change which sorted list comes first. */
  lemma CommonElementsKeepOrder(xs: seq<int>, ys: seq<int>, common: seq<int>, xs': seq<int>, ys': seq<int>)
    requires Ascending(xs) && Ascending(ys) && Ascending(xs') && Ascending(ys') && |xs| == |ys| && |xs'| == |ys'|
    requires forall z :: z in xs' <==> z in common || z in xs
    requires forall z :: z in ys' <==> z in common || z in ys
    requires forall z | z in common :: z !in xs && z !in ys
    requires Compare(xs, ys) <= 0
    ensures Compare(xs', ys') <= 0
  {
    CompareFacts(xs, ys);
    CompareFacts(xs', ys');
    if xs == ys {
      forall i | 0 <= i < |xs'| ensures xs'[i] in ys' { assert xs'[i] in xs'; }
      forall i | 0 <= i < |ys'| ensures ys'[i] in xs' { assert ys'[i] in ys'; }
      AscendingUnique(xs', ys');
    } else {
      var x := SmallerHasFirst(xs, ys);
      assert FirstDifference(xs', ys', x);
      FirstIsSmaller(xs', ys', x);
    }
  }

  /** A strictly increasing renaming preserves the order of lists. */
  lemma {:induction false} CompareRenamed(xs: seq<int>, ys: seq<int>, name: int -> int)
    requires forall i, j | 0 <= i < |xs| && 0 <= j < |ys| ::
      (xs[i] < ys[j] <==> name(xs[i]) < name(ys[j])) && (xs[i] == ys[j] <==> name(xs[i]) == name(ys[j]))
    ensures Compare(Renamed(xs, name), Renamed(ys, name)) == Compare(xs, ys)
  {
    if |xs| > 0 && |ys| > 0 {
      assert Renamed(xs, name)[1..] == Renamed(xs[1..], name);
      assert Renamed(ys, name)[1..] == Renamed(ys[1..], name);
      CompareRenamed(xs[1..], ys[1..], name);
    }
  }
}
