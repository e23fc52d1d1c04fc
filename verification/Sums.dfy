/**
 Finite sums over index ranges and over sequences, and sums and maxima over the unordered
 pairs of a sequence.  The placement score, the tree knapsack and the bounds are all stated
 with these.
 */
module Sums {

  function Max(a: int, b: int): int {
    if a < b then b else a
  }

  function Min(a: int, b: int): int {
    if b < a then b else a
  }

  // ----- sums over 0..n -----

  ghost function Sum(n: nat, f: int -> int): int {
    if n == 0 then 0 else Sum(n - 1, f) + f(n - 1)
  }

  lemma {:induction false} SumExt(n: nat, f: int -> int, g: int -> int)
    requires forall i | 0 <= i < n :: f(i) == g(i)
    ensures Sum(n, f) == Sum(n, g)
  {
    if n > 0 { SumExt(n - 1, f, g); }
  }

  lemma {:induction false} SumAtMost(n: nat, f: int -> int, g: int -> int)
    requires forall i | 0 <= i < n :: f(i) <= g(i)
    ensures Sum(n, f) <= Sum(n, g)
  {
    if n > 0 { SumAtMost(n - 1, f, g); }
  }

  lemma {:induction false} SumAdd(n: nat, f: int -> int, g: int -> int, h: int -> int)
    requires forall i | 0 <= i < n :: h(i) == f(i) + g(i)
    ensures Sum(n, h) == Sum(n, f) + Sum(n, g)
  {
    if n > 0 { SumAdd(n - 1, f, g, h); }
  }

  lemma {:induction false} SumZero(n: nat, f: int -> int)
    requires forall i | 0 <= i < n :: f(i) == 0
    ensures Sum(n, f) == 0
  {
    if n > 0 { SumZero(n - 1, f); }
  }

  lemma {:induction false} SumNonNegative(n: nat, f: int -> int)
    requires forall i | 0 <= i < n :: 0 <= f(i)
    ensures 0 <= Sum(n, f)
  {
    if n > 0 { SumNonNegative(n - 1, f); }
  }

  lemma {:induction false} SumBounded(n: nat, f: int -> int, c: int)
    requires forall i | 0 <= i < n :: f(i) <= c
    ensures Sum(n, f) <= n * c
  {
    if n > 0 { SumBounded(n - 1, f, c); assert n * c == (n - 1) * c + c; }
  }

  /** A function that vanishes outside one index sums to its value there. */
  lemma {:induction false} SumSingle(n: nat, f: int -> int, k: int)
    requires 0 <= k < n
    requires forall i | 0 <= i < n && i != k :: f(i) == 0
    ensures Sum(n, f) == f(k)
  {
    if k == n - 1 { SumZero(n - 1, f); } else { SumSingle(n - 1, f, k); }
  }

  // ----- sums over the elements of a sequence -----

  ghost function Total(xs: seq<int>, f: int -> int): int {
    if |xs| == 0 then 0 else Total(xs[..|xs| - 1], f) + f(xs[|xs| - 1])
  }

  ghost function Count(xs: seq<int>, p: int -> bool): (c: nat)
    ensures c <= |xs|
  {
    if |xs| == 0 then 0 else Count(xs[..|xs| - 1], p) + if p(xs[|xs| - 1]) then 1 else 0
  }

  lemma {:induction false} TotalExt(xs: seq<int>, f: int -> int, g: int -> int)
    requires forall i | 0 <= i < |xs| :: f(xs[i]) == g(xs[i])
    ensures Total(xs, f) == Total(xs, g)
  {
    if |xs| > 0 { TotalExt(xs[..|xs| - 1], f, g); }
  }

  lemma {:induction false} TotalAdd(xs: seq<int>, f: int -> int, g: int -> int, h: int -> int)
    requires forall i | 0 <= i < |xs| :: h(xs[i]) == f(xs[i]) + g(xs[i])
    ensures Total(xs, h) == Total(xs, f) + Total(xs, g)
  {
    if |xs| > 0 { TotalAdd(xs[..|xs| - 1], f, g, h); }
  }

  lemma {:induction false} TotalConcat(xs: seq<int>, ys: seq<int>, f: int -> int)
    ensures Total(xs + ys, f) == Total(xs, f) + Total(ys, f)
  {
    if |ys| == 0 {
      assert xs + ys == xs;
    } else {
      TotalConcat(xs, ys[..|ys| - 1], f);
      assert (xs + ys)[..|xs + ys| - 1] == xs + ys[..|ys| - 1];
    }
  }

  lemma {:induction false} TotalAtMost(xs: seq<int>, f: int -> int, g: int -> int)
    requires forall i | 0 <= i < |xs| :: f(xs[i]) <= g(xs[i])
    ensures Total(xs, f) <= Total(xs, g)
  {
    if |xs| > 0 { TotalAtMost(xs[..|xs| - 1], f, g); }
  }

  /** Sum over the elements of xs of a sum over v, with the order of summation exchanged. */
  lemma {:induction false} TotalOfSums(xs: seq<int>, n: nat, f: int -> int -> int, g: int -> int)
    requires forall i | 0 <= i < |xs| :: g(xs[i]) == Sum(n, v => f(v)(xs[i]))
    ensures Total(xs, g) == Sum(n, v => Total(xs, f(v)))
  {
    if |xs| == 0 {
      forall v {:trigger f(v)} ensures Total(xs, f(v)) == 0 {}
      SumZero(n, v => Total(xs, f(v)));
    } else {
      var init, z := xs[..|xs| - 1], xs[|xs| - 1];
      assert z in xs;
      TotalOfSums(init, n, f, g);
      SumAdd(n, v => Total(init, f(v)), v => f(v)(z), v => Total(xs, f(v)));
    }
  }

  lemma {:induction false} CountExt(xs: seq<int>, p: int -> bool, q: int -> bool)
    requires forall i | 0 <= i < |xs| :: p(xs[i]) == q(xs[i])
    ensures Count(xs, p) == Count(xs, q)
  {
    if |xs| > 0 { CountExt(xs[..|xs| - 1], p, q); }
  }

  lemma {:induction false} CountConcat(xs: seq<int>, ys: seq<int>, p: int -> bool)
    ensures Count(xs + ys, p) == Count(xs, p) + Count(ys, p)
  {
    if |ys| == 0 {
      assert xs + ys == xs;
    } else {
      CountConcat(xs, ys[..|ys| - 1], p);
      assert (xs + ys)[..|xs + ys| - 1] == xs + ys[..|ys| - 1];
    }
  }

  lemma {:induction false} CountComplement(xs: seq<int>, p: int -> bool, q: int -> bool)
    requires forall i | 0 <= i < |xs| :: p(xs[i]) == !q(xs[i])
    ensures Count(xs, p) + Count(xs, q) == |xs|
  {
    if |xs| > 0 { CountComplement(xs[..|xs| - 1], p, q); }
  }

  /** Counting a class split into two disjoint parts. */
  lemma {:induction false} CountSplit(xs: seq<int>, p: int -> bool, q: int -> bool, r: int -> bool)
    requires forall i | 0 <= i < |xs| :: r(xs[i]) == (p(xs[i]) || q(xs[i])) && !(p(xs[i]) && q(xs[i]))
    ensures Count(xs, r) == Count(xs, p) + Count(xs, q)
  {
    if |xs| > 0 { CountSplit(xs[..|xs| - 1], p, q, r); }
  }

  lemma {:induction false} CountZero(xs: seq<int>, p: int -> bool)
    requires forall i | 0 <= i < |xs| :: !p(xs[i])
    ensures Count(xs, p) == 0
  {
    if |xs| > 0 { CountZero(xs[..|xs| - 1], p); }
  }

  lemma {:induction false} CountRemove(xs: seq<int>, k: nat, p: int -> bool)
    requires k < |xs|
    ensures Count(xs, p) == Count(xs[..k] + xs[k + 1..], p) + if p(xs[k]) then 1 else 0
  {
    assert xs == xs[..k] + [xs[k]] + xs[k + 1..];
    CountConcat(xs[..k] + [xs[k]], xs[k + 1..], p);
    CountConcat(xs[..k], [xs[k]], p);
    CountConcat(xs[..k], xs[k + 1..], p);
    assert [xs[k]][..0] == [];
  }

  lemma {:induction false} TotalRemove(xs: seq<int>, k: nat, f: int -> int)
    requires k < |xs|
    ensures Total(xs, f) == Total(xs[..k] + xs[k + 1..], f) + f(xs[k])
  {
    assert xs == xs[..k] + [xs[k]] + xs[k + 1..];
    TotalConcat(xs[..k] + [xs[k]], xs[k + 1..], f);
    TotalConcat(xs[..k], [xs[k]], f);
    TotalConcat(xs[..k], xs[k + 1..], f);
    assert [xs[k]][..0] == [];
  }

  ghost predicate Rearranged(xs: seq<int>, ys: seq<int>) {
    multiset(xs) == multiset(ys)
  }

  /** Where the last element of xs sits in a rearrangement ys, and what is left around it. */
  lemma MatchLast(xs: seq<int>, ys: seq<int>) returns (k: nat)
    requires Rearranged(xs, ys) && |xs| > 0
    ensures k < |ys| && ys[k] == xs[|xs| - 1]
    ensures Rearranged(xs[..|xs| - 1], ys[..k] + ys[k + 1..])
  {
    var z := xs[|xs| - 1];
    assert z in multiset(xs);
    assert z in multiset(ys);
    k :| 0 <= k < |ys| && ys[k] == z;
    assert xs == xs[..|xs| - 1] + [z];
    assert ys == ys[..k] + [z] + ys[k + 1..];
    assert multiset(xs) == multiset(xs[..|xs| - 1]) + multiset{z};
    assert multiset(ys[..k] + [z] + ys[k + 1..]) == multiset(ys[..k] + ys[k + 1..]) + multiset{z};
    assert multiset(xs) - multiset{z} == multiset(ys) - multiset{z};
    assert multiset(xs) - multiset{z} == multiset(xs[..|xs| - 1]);
    assert multiset(ys) - multiset{z} == multiset(ys[..k] + ys[k + 1..]);
  }

  lemma RearrangedEmpty(xs: seq<int>, ys: seq<int>)
    requires Rearranged(xs, ys) && |xs| == 0
    ensures ys == []
  {}

  lemma {:induction false} CountRearranged(xs: seq<int>, ys: seq<int>, p: int -> bool)
    requires Rearranged(xs, ys)
    ensures Count(xs, p) == Count(ys, p)
  {
    if |xs| == 0 {
      RearrangedEmpty(xs, ys);
    } else {
      var k := MatchLast(xs, ys);
      CountRearranged(xs[..|xs| - 1], ys[..k] + ys[k + 1..], p);
      CountRemove(ys, k, p);
    }
  }

  lemma {:induction false} TotalRearranged(xs: seq<int>, ys: seq<int>, f: int -> int)
    requires Rearranged(xs, ys)
    ensures Total(xs, f) == Total(ys, f)
  {
    if |xs| == 0 {
      RearrangedEmpty(xs, ys);
    } else {
      var k := MatchLast(xs, ys);
      TotalRearranged(xs[..|xs| - 1], ys[..k] + ys[k + 1..], f);
      TotalRemove(ys, k, f);
    }
  }
}
