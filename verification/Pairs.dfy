/**
 Sums and maxima over the unordered pairs of a sequence.  A pair is seen once, with the
 later element first.
 */
module Pairs {
  import opened Sums

  ghost function PairSum(xs: seq<int>, w: (int, int) -> int): int {
    if |xs| == 0 then 0
    else
      var init, z := xs[..|xs| - 1], xs[|xs| - 1];
      PairSum(init, w) + Total(init, y => w(z, y))
  }

  ghost function RowMax(xs: seq<int>, f: int -> int): int {
    if |xs| == 0 then 0 else Max(RowMax(xs[..|xs| - 1], f), f(xs[|xs| - 1]))
  }

  ghost function PairMax(xs: seq<int>, w: (int, int) -> int): int {
    if |xs| == 0 then 0
    else
      var init, z := xs[..|xs| - 1], xs[|xs| - 1];
      Max(PairMax(init, w), RowMax(init, y => w(z, y)))
  }

  ghost predicate Distinct(xs: seq<int>) {
    forall i, j | 0 <= i < j < |xs| :: xs[i] != xs[j]
  }

  // ----- pair sums -----

  lemma PairStep(xs: seq<int>, w: (int, int) -> int)
    requires |xs| > 0
    ensures PairSum(xs, w) == PairSum(xs[..|xs| - 1], w) + Total(xs[..|xs| - 1], y => w(xs[|xs| - 1], y))
  {}

  lemma Distribute(a: int, b: int, c: int)
    ensures a * (b + c) == a * b + a * c
  {}

  /** Functions that agree on all the pairs of a duplicate-free sequence have equal sums. */
  lemma {:induction false} PairSumExt(xs: seq<int>, v: (int, int) -> int, w: (int, int) -> int)
    requires forall i, j | 0 <= i < j < |xs| :: v(xs[j], xs[i]) == w(xs[j], xs[i])
    ensures PairSum(xs, v) == PairSum(xs, w)
  {
    if |xs| > 0 {
      var init, z := xs[..|xs| - 1], xs[|xs| - 1];
      PairSumExt(init, v, w);
      TotalExt(init, y => v(z, y), y => w(z, y));
    }
  }

  /** u = v + w pair by pair. */
  lemma {:induction false} PairSumAdd(xs: seq<int>, v: (int, int) -> int, w: (int, int) -> int,
                                      u: (int, int) -> int)
    requires forall i, j | 0 <= i < j < |xs| :: u(xs[j], xs[i]) == v(xs[j], xs[i]) + w(xs[j], xs[i])
    ensures PairSum(xs, u) == PairSum(xs, v) + PairSum(xs, w)
  {
    if |xs| > 0 {
      var init, z := xs[..|xs| - 1], xs[|xs| - 1];
      PairSumAdd(init, v, w, u);
      TotalAdd(init, y => v(z, y), y => w(z, y), y => u(z, y));
    }
  }

  /** A pair sum of sums over v, with the order of summation exchanged. */
  lemma {:induction false} PairSumOfSums(xs: seq<int>, n: nat, f: int -> (int, int) -> int, w: (int, int) -> int)
    requires forall i, j | 0 <= i < j < |xs| :: w(xs[j], xs[i]) == Sum(n, v => f(v)(xs[j], xs[i]))
    ensures PairSum(xs, w) == Sum(n, v => PairSum(xs, f(v)))
  {
    if |xs| == 0 {
      forall v {:trigger f(v)} ensures PairSum(xs, f(v)) == 0 {}
      SumZero(n, v => PairSum(xs, f(v)));
    } else {
      var init, z := xs[..|xs| - 1], xs[|xs| - 1];
      PairSumOfSums(init, n, f, w);
      var row: int -> int -> int := v => y => f(v)(z, y);
      forall y | y in init ensures w(z, y) == Sum(n, v => row(v)(y)) {
        var i :| 0 <= i < |init| && init[i] == y;
        assert xs[i] == y;
        SumExt(n, v => f(v)(xs[|xs| - 1], xs[i]), v => row(v)(y));
      }
      TotalOfSums(init, n, row, y => w(z, y));
      forall v {:trigger row(v)} ensures PairSum(xs, f(v)) == PairSum(init, f(v)) + Total(init, row(v)) {
        TotalExt(init, y => f(v)(z, y), row(v));
      }
      SumAdd(n, v => PairSum(init, f(v)), v => Total(init, row(v)), v => PairSum(xs, f(v)));
    }
  }

  lemma {:induction false} TotalIndicator(xs: seq<int>, p: int -> bool, f: int -> int)
    requires forall i | 0 <= i < |xs| :: f(xs[i]) == if p(xs[i]) then 1 else 0
    ensures Total(xs, f) == Count(xs, p)
  {
    if |xs| > 0 { TotalIndicator(xs[..|xs| - 1], p, f); }
  }

  lemma {:induction false} TotalZero(xs: seq<int>, f: int -> int)
    requires forall i | 0 <= i < |xs| :: f(xs[i]) == 0
    ensures Total(xs, f) == 0
  {
    if |xs| > 0 { TotalZero(xs[..|xs| - 1], f); }
  }

  ghost predicate Across(a: int -> bool, b: int -> bool, x: int, y: int) {
    (a(x) && b(y)) || (b(x) && a(y))
  }

  lemma AcrossRow(init: seq<int>, z: int, a: int -> bool, b: int -> bool, f: int -> int)
    requires !(a(z) && b(z))
    requires forall i | 0 <= i < |init| :: f(init[i]) == if Across(a, b, z, init[i]) then 1 else 0
    ensures Total(init, f) == if a(z) then Count(init, b) else if b(z) then Count(init, a) else 0
  {}

  /** Pairs with one element in each of two disjoint classes number the product of the class sizes. */
  lemma {:induction false} PairsAcross(xs: seq<int>, a: int -> bool, b: int -> bool, w: (int, int) -> int)
    requires forall i | 0 <= i < |xs| :: !(a(xs[i]) && b(xs[i]))
    requires forall i, j | 0 <= i < j < |xs| :: w(xs[j], xs[i]) == if Across(a, b, xs[j], xs[i]) then 1 else 0
    ensures PairSum(xs, w) == Count(xs, a) * Count(xs, b)
  {
    if |xs| > 0 {
      var init, z := xs[..|xs| - 1], xs[|xs| - 1];
      PairsAcross(init, a, b, w);
      PairStep(xs, w);
      AcrossRow(init, z, a, b, y => w(z, y));
      AcrossProduct(xs, a, b);
    }
  }

  lemma AcrossProduct(xs: seq<int>, a: int -> bool, b: int -> bool)
    requires |xs| > 0 && !(a(xs[|xs| - 1]) && b(xs[|xs| - 1]))
    ensures var init, z := xs[..|xs| - 1], xs[|xs| - 1];
            Count(xs, a) * Count(xs, b) ==
            Count(init, a) * Count(init, b) + if a(z) then Count(init, b) else if b(z) then Count(init, a) else 0
  {
    var init, z := xs[..|xs| - 1], xs[|xs| - 1];
    var ca, cb := Count(init, a), Count(init, b);
    CountLast(xs, a);
    CountLast(xs, b);
    hide Count;
    OneMore(ca, cb);
    OneMore(cb, ca);
  }

  lemma OneMore(c: int, d: int)
    ensures (c + 1) * d == c * d + d && d * (c + 1) == d * c + d
  {}

  lemma CountLast(xs: seq<int>, p: int -> bool)
    requires |xs| > 0
    ensures Count(xs, p) == Count(xs[..|xs| - 1], p) + if p(xs[|xs| - 1]) then 1 else 0
  {}

  /** The number of pairs among k things. */
  ghost function Choose2(k: int): int {
    if k <= 1 then 0 else Choose2(k - 1) + (k - 1)
  }

  lemma {:induction false} Choose2Formula(k: nat)
    ensures Choose2(k) == k * (k - 1) / 2
  {
    if k > 1 {
      Choose2Formula(k - 1);
      assert k * (k - 1) == (k - 1) * (k - 2) + 2 * (k - 1);
    }
  }

  /** k times t, by repeated addition. */
  ghost function Multiple(k: nat, t: int): int {
    if k == 0 then 0 else Multiple(k - 1, t) + t
  }

  lemma {:induction false} MultipleFormula(k: nat, t: int)
    ensures Multiple(k, t) == k * t
  {
    if k > 0 {
      MultipleFormula(k - 1, t);
      Distribute(t, k - 1, 1);
    }
  }

  lemma {:induction false} MultipleMonotone(m: nat, k: nat, t: int)
    requires m <= k && 0 <= t
    ensures Multiple(m, t) <= Multiple(k, t)
  {
    if m < k { MultipleMonotone(m, k - 1, t); }
  }

  lemma {:induction false} MultipleAdds(m: nat, k: nat, t: int)
    ensures Multiple(m + k, t) == Multiple(m, t) + Multiple(k, t)
  {
    if k > 0 { MultipleAdds(m, k - 1, t); }
  }

  /** Pairs inside one class. */
  lemma {:induction false} PairsWithin(xs: seq<int>, p: int -> bool, w: (int, int) -> int)
    requires forall i, j | 0 <= i < j < |xs| :: w(xs[j], xs[i]) == if p(xs[j]) && p(xs[i]) then 1 else 0
    ensures PairSum(xs, w) == Choose2(Count(xs, p))
  {
    if |xs| > 0 {
      var init, z := xs[..|xs| - 1], xs[|xs| - 1];
      assert z in xs;
      PairsWithin(init, p, w);
      if p(z) {
        TotalIndicator(init, p, y => w(z, y));
      } else {
        TotalZero(init, y => w(z, y));
      }
    }
  }

  ghost predicate OnPairs(xs: seq<int>, v: (int, int) -> int, w: (int, int) -> int) {
    forall i, j | 0 <= i < j < |xs| :: v(xs[j], xs[i]) <= w(xs[j], xs[i])
  }

  /** If w is at least v on every pair, then so is what w gains by extending xs with ys. */
  lemma {:induction false} PairGrowth(xs: seq<int>, ys: seq<int>, v: (int, int) -> int, w: (int, int) -> int)
    requires OnPairs(xs + ys, v, w)
    ensures PairSum(xs + ys, v) - PairSum(xs, v) <= PairSum(xs + ys, w) - PairSum(xs, w)
  {
    if |ys| == 0 {
      assert xs + ys == xs;
    } else {
      var all := xs + ys;
      assert all[..|all| - 1] == xs + ys[..|ys| - 1];
      PairGrowth(xs, ys[..|ys| - 1], v, w);
      LastRowGrowth(all, v, w);
    }
  }

  lemma LastRowGrowth(xs: seq<int>, v: (int, int) -> int, w: (int, int) -> int)
    requires |xs| > 0 && OnPairs(xs, v, w)
    ensures PairSum(xs, v) - PairSum(xs[..|xs| - 1], v) <= PairSum(xs, w) - PairSum(xs[..|xs| - 1], w)
  {
    var init, z := xs[..|xs| - 1], xs[|xs| - 1];
    TotalAtMost(init, y => v(z, y), y => w(z, y));
  }

  lemma {:induction false} TotalScaled(xs: seq<int>, f: int -> int, g: int -> int, c: int)
    requires forall i | 0 <= i < |xs| :: (f(xs[i]) == 0 && g(xs[i]) == 0) || (f(xs[i]) == c && g(xs[i]) == 1)
    ensures 0 <= Total(xs, g) && Total(xs, f) == Multiple(Total(xs, g), c)
  {
    if |xs| > 0 { TotalScaled(xs[..|xs| - 1], f, g, c); }
  }

  /** A pair function that is c where another is 1, and 0 where that is 0. */
  lemma {:induction false} PairSumScaled(xs: seq<int>, w: (int, int) -> int, v: (int, int) -> int, c: int)
    requires forall x, y :: (w(x, y) == 0 && v(x, y) == 0) || (w(x, y) == c && v(x, y) == 1)
    ensures 0 <= PairSum(xs, v) && PairSum(xs, w) == Multiple(PairSum(xs, v), c)
  {
    if |xs| > 0 {
      var init, z := xs[..|xs| - 1], xs[|xs| - 1];
      PairSumScaled(init, w, v, c);
      TotalScaled(init, y => w(z, y), y => v(z, y), c);
      MultipleAdds(PairSum(init, v), Total(init, y => v(z, y)), c);
    }
  }

  // ----- pair maxima -----

  lemma {:induction false} RowMaxSpec(xs: seq<int>, f: int -> int)
    ensures 0 <= RowMax(xs, f)
    ensures forall x | x in xs :: f(x) <= RowMax(xs, f)
    ensures RowMax(xs, f) == 0 || exists x | x in xs :: f(x) == RowMax(xs, f)
  {
    if |xs| > 0 {
      var init, z := xs[..|xs| - 1], xs[|xs| - 1];
      RowMaxSpec(init, f);
      assert forall x | x in xs :: x in init || x == z;
      assert z in xs && forall x | x in init :: x in xs;
    }
  }

  lemma {:induction false} RowMaxExt(xs: seq<int>, f: int -> int, g: int -> int)
    requires forall i | 0 <= i < |xs| :: f(xs[i]) == g(xs[i])
    ensures RowMax(xs, f) == RowMax(xs, g)
  {
    if |xs| > 0 { RowMaxExt(xs[..|xs| - 1], f, g); }
  }

  lemma {:induction false} PairMaxExt(xs: seq<int>, v: (int, int) -> int, w: (int, int) -> int)
    requires forall i, j | 0 <= i < j < |xs| :: v(xs[j], xs[i]) == w(xs[j], xs[i])
    ensures PairMax(xs, v) == PairMax(xs, w)
  {
    if |xs| > 0 {
      var init, z := xs[..|xs| - 1], xs[|xs| - 1];
      PairMaxExt(init, v, w);
      RowMaxExt(init, y => v(z, y), y => w(z, y));
    }
  }

  lemma {:induction false} PairMaxBounds(xs: seq<int>, w: (int, int) -> int, i: nat, j: nat)
    requires i < j < |xs|
    ensures w(xs[j], xs[i]) <= PairMax(xs, w)
  {
    var init, z := xs[..|xs| - 1], xs[|xs| - 1];
    if j < |init| {
      PairMaxBounds(init, w, i, j);
    } else {
      RowMaxSpec(init, y => w(z, y));
      var y := init[i];
      assert y in init;
    }
  }

  lemma {:induction false} PairMaxReached(xs: seq<int>, w: (int, int) -> int)
    ensures 0 <= PairMax(xs, w)
    ensures PairMax(xs, w) == 0 || exists i, j | 0 <= i < j < |xs| :: w(xs[j], xs[i]) == PairMax(xs, w)
  {
    if |xs| > 0 {
      var init, z := xs[..|xs| - 1], xs[|xs| - 1];
      PairMaxReached(init, w);
      RowMaxSpec(init, y => w(z, y));
      if PairMax(xs, w) != 0 && PairMax(xs, w) == PairMax(init, w) {
        var i, j :| 0 <= i < j < |init| && w(init[j], init[i]) == PairMax(init, w);
        assert w(xs[j], xs[i]) == PairMax(xs, w);
      } else if PairMax(xs, w) != 0 {
        var y :| y in init && w(z, y) == PairMax(xs, w);
        var i :| 0 <= i < |init| && init[i] == y;
        assert w(xs[|xs| - 1], xs[i]) == PairMax(xs, w);
      }
    }
  }

  /** PairMax is an upper bound of all pairs, and is 0 or attained. */
  lemma PairMaxSpec(xs: seq<int>, w: (int, int) -> int)
    ensures 0 <= PairMax(xs, w)
    ensures forall i, j | 0 <= i < j < |xs| :: w(xs[j], xs[i]) <= PairMax(xs, w)
    ensures PairMax(xs, w) == 0 || exists i, j | 0 <= i < j < |xs| :: w(xs[j], xs[i]) == PairMax(xs, w)
  {
    hide PairMax;
    PairMaxReached(xs, w);
    forall i, j | 0 <= i < j < |xs| ensures w(xs[j], xs[i]) <= PairMax(xs, w) { PairMaxBounds(xs, w, i, j); }
  }

  lemma {:induction false} PairMaxMonotone(xs: seq<int>, ys: seq<int>, w: (int, int) -> int)
    ensures PairMax(xs, w) <= PairMax(xs + ys, w)
  {
    PairMaxSpec(xs, w);
    PairMaxSpec(xs + ys, w);
    if PairMax(xs, w) > 0 {
      var i, j :| 0 <= i < j < |xs| && w(xs[j], xs[i]) == PairMax(xs, w);
      assert (xs + ys)[j] == xs[j] && (xs + ys)[i] == xs[i];
    }
  }

  // ----- order independence -----

  ghost predicate Symmetric(w: (int, int) -> int) {
    forall x, y :: w(x, y) == w(y, x)
  }

  lemma FrontWithout(xs: seq<int>, k: nat)
    requires k < |xs| - 1
    ensures var init, z := xs[..|xs| - 1], xs[|xs| - 1];
            xs[..k] + xs[k + 1..] == (init[..k] + init[k + 1..]) + [z]
  {
    var init, z := xs[..|xs| - 1], xs[|xs| - 1];
    assert xs == init + [z];
    assert xs[..k] == init[..k];
    assert xs[k + 1..] == init[k + 1..] + [z];
  }

  lemma {:induction false} PairSumRemove(xs: seq<int>, k: nat, w: (int, int) -> int)
    requires k < |xs| && Symmetric(w)
    ensures PairSum(xs, w) == PairSum(xs[..k] + xs[k + 1..], w) + Total(xs[..k] + xs[k + 1..], y => w(xs[k], y))
  {
    var init, z, x := xs[..|xs| - 1], xs[|xs| - 1], xs[k];
    if k == |xs| - 1 {
      assert xs[..k] + xs[k + 1..] == init;
    } else {
      PairSumRemove(init, k, w);
      var rest := init[..k] + init[k + 1..];
      var both := xs[..k] + xs[k + 1..];
      FrontWithout(xs, k);
      assert both == rest + [z];
      assert both[..|both| - 1] == rest;
      TotalRemove(init, k, y => w(z, y));
      assert init[k] == x;
      TotalExt(rest, y => w(init[k], y), y => w(x, y));
      assert w(z, x) == w(x, z);
      assert Total(both, y => w(x, y)) == Total(rest, y => w(x, y)) + w(x, z);
    }
  }

  lemma {:induction false} PairSumRearranged(xs: seq<int>, ys: seq<int>, w: (int, int) -> int)
    requires Rearranged(xs, ys) && Symmetric(w)
    ensures PairSum(xs, w) == PairSum(ys, w)
  {
    if |xs| == 0 {
      RearrangedEmpty(xs, ys);
    } else {
      var init, z := xs[..|xs| - 1], xs[|xs| - 1];
      var k := MatchLast(xs, ys);
      var rest := ys[..k] + ys[k + 1..];
      PairSumRearranged(init, rest, w);
      PairSumRemove(ys, k, w);
      TotalRearranged(init, rest, y => w(z, y));
      TotalExt(rest, y => w(z, y), y => w(ys[k], y));
    }
  }

  lemma SameElements(xs: seq<int>, ys: seq<int>)
    requires Rearranged(xs, ys)
    ensures forall x :: x in xs <==> x in ys
  {
    forall x ensures x in xs <==> x in ys {
      assert x in xs <==> x in multiset(xs);
      assert x in ys <==> x in multiset(ys);
    }
  }

  lemma {:induction false} PairMaxRearrangedAtMost(xs: seq<int>, ys: seq<int>, w: (int, int) -> int)
    requires Rearranged(xs, ys) && Symmetric(w) && Distinct(xs)
    ensures PairMax(xs, w) <= PairMax(ys, w)
  {
    PairMaxSpec(xs, w);
    PairMaxSpec(ys, w);
    SameElements(xs, ys);
    if PairMax(xs, w) > 0 {
      var i, j :| 0 <= i < j < |xs| && w(xs[j], xs[i]) == PairMax(xs, w);
      assert xs[i] in ys && xs[j] in ys;
      var k, l :| 0 <= k < |ys| && 0 <= l < |ys| && ys[k] == xs[i] && ys[l] == xs[j];
      assert w(ys[k], ys[l]) == w(ys[l], ys[k]);
    }
  }
}
