/** Options, ascending lists and the sorted list of a finite set of device IDs. */
module Ordering {
  datatype Option<+T> = None | Some(value: T)

  predicate NonDecreasing(xs: seq<int>) {
    forall i, j | 0 <= i < j < |xs| :: xs[i] <= xs[j]
  }

  predicate Ascending(xs: seq<int>) {
    forall i, j | 0 <= i < j < |xs| :: xs[i] < xs[j]
  }

  /** The effect of slices.Sort on a list of integers. */
  function Sorted(xs: seq<int>): (r: seq<int>)
    ensures NonDecreasing(r) && multiset(r) == multiset(xs) && |r| == |xs|
  {
    if |xs| == 0 then []
    else
      var init, z := xs[..|xs| - 1], xs[|xs| - 1];
      assert xs == init + [z];
      Insert(Sorted(init), z)
  }

  lemma InsertedAtMost(xs: seq<int>, z: int, ys: seq<int>, most: int)
    requires multiset(ys) == multiset(xs) + multiset{z} && z <= most
    requires forall i | 0 <= i < |xs| :: xs[i] <= most
    ensures forall i | 0 <= i < |ys| :: ys[i] <= most
  {
    forall i | 0 <= i < |ys| ensures ys[i] <= most {
      var y := ys[i];
      assert y in multiset(ys);
      if y != z {
        assert y in multiset(xs);
        var k :| 0 <= k < |xs| && xs[k] == y;
      }
    }
  }

  function Insert(xs: seq<int>, z: int): (r: seq<int>)
    requires NonDecreasing(xs)
    ensures NonDecreasing(r) && multiset(r) == multiset(xs) + multiset{z} && |r| == |xs| + 1
  {
    if |xs| == 0 || xs[|xs| - 1] <= z then xs + [z]
    else
      var init, last := xs[..|xs| - 1], xs[|xs| - 1];
      assert xs == init + [last];
      var r := Insert(init, z);
      InsertedAtMost(init, z, r, last);
      r + [last]
  }

  lemma SameElementsSorted(xs: seq<int>)
    ensures forall x :: x in Sorted(xs) <==> x in xs
  {
    forall x ensures x in Sorted(xs) <==> x in xs {
      assert x in xs <==> x in multiset(xs);
      assert x in Sorted(xs) <==> x in multiset(Sorted(xs));
    }
  }

  lemma DistinctSorted(xs: seq<int>)
    requires forall i, j | 0 <= i < j < |xs| :: xs[i] != xs[j]
    ensures Ascending(Sorted(xs))
  {
    hide Sorted;
    var r := Sorted(xs);
    forall i, j | 0 <= i < j < |r| ensures r[i] < r[j] {
      DistinctCountsOnce(xs, r[i]);
      if r[i] == r[j] {
        TwiceCountsTwice(r, i, j);
        assert false;
      }
    }
  }

  lemma TwiceCountsTwice(xs: seq<int>, i: nat, j: nat)
    requires i < j < |xs| && xs[i] == xs[j]
    ensures multiset(xs)[xs[i]] >= 2
  {
    var a, b := xs[..j], xs[j..];
    assert xs == a + b;
    assert a[i] in multiset(a) && b[0] in multiset(b);
    assert multiset(xs) == multiset(a) + multiset(b);
  }

  lemma {:induction false} DistinctCountsOnce(xs: seq<int>, x: int)
    requires forall i, j | 0 <= i < j < |xs| :: xs[i] != xs[j]
    ensures multiset(xs)[x] <= 1
  {
    if |xs| > 0 {
      var init, z := xs[..|xs| - 1], xs[|xs| - 1];
      assert xs == init + [z];
      DistinctCountsOnce(init, x);
      if x == z {
        assert z !in init;
        assert z !in multiset(init);
      }
    }
  }

  ghost predicate Within(xs: seq<int>, ys: seq<int>) {
    forall i | 0 <= i < |xs| :: xs[i] in ys
  }

  lemma WithinNonEmpty(xs: seq<int>, ys: seq<int>)
    requires |xs| > 0 && Within(xs, ys)
    ensures |ys| > 0
  {
    assert xs[0] in ys;
  }

  lemma LastBounds(xs: seq<int>, ys: seq<int>)
    requires Ascending(ys) && Within(xs, ys) && |xs| > 0
    ensures |ys| > 0 && xs[|xs| - 1] <= ys[|ys| - 1]
  {}

  lemma FrontsWithin(xs: seq<int>, ys: seq<int>)
    requires Ascending(xs) && Within(xs, ys) && |xs| > 0 && |ys| > 0 && xs[|xs| - 1] == ys[|ys| - 1]
    ensures Within(xs[..|xs| - 1], ys[..|ys| - 1])
  {}

  /** An ascending list is determined by its set of elements. */
  lemma {:induction false} AscendingUnique(xs: seq<int>, ys: seq<int>)
    requires Ascending(xs) && Ascending(ys)
    requires Within(xs, ys) && Within(ys, xs)
    ensures xs == ys
  {
    hide Within;
    if |xs| > 0 { LastBounds(xs, ys); }
    if |ys| > 0 { LastBounds(ys, xs); }
    if |xs| > 0 {
      FrontsWithin(xs, ys);
      FrontsWithin(ys, xs);
      AscendingUnique(xs[..|xs| - 1], ys[..|ys| - 1]);
      assert xs == xs[..|xs| - 1] + [xs[|xs| - 1]] && ys == ys[..|ys| - 1] + [ys[|ys| - 1]];
    }
  }

  method Pick<T>(s: set<T>) returns (x: T)
    requires s != {}
    ensures x in s
  {
    x :| x in s;
  }

  /** sortedDeviceIDs: the keys in ascending order, whatever order they are enumerated in. */
  method SortedKeys<V>(m: map<int, V>) returns (ids: seq<int>)
    ensures Ascending(ids)
    ensures forall id :: id in ids <==> id in m
  {
    var rest: set<int> := m.Keys;
    var keys: seq<int> := [];
    while rest != {}
      invariant rest <= m.Keys
      invariant forall id :: id in keys <==> id in m && id !in rest
      invariant forall i, j | 0 <= i < j < |keys| :: keys[i] != keys[j]
      decreases |rest|
    {
      var id := Pick(rest);
      assert id !in keys;
      keys, rest := keys + [id], rest - {id};
    }
    ids := Sorted(keys);
    SameElementsSorted(keys);
    DistinctSorted(keys);
  }
}
