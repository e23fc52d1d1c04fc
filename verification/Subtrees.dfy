/**
 Sums over the subtrees of the PCI forest, and selections: how many endpoints are taken at each
 node.  A subtree sum splits into the node and its children's subtrees, and the parts can be
 chosen independently of each other.
 */
module Subtrees {
  import opened Ordering
  import opened Sums
  import opened Pairs
  import opened PCITopology
  import opened EdgeIdentity

  type Selection = seq<int>

  ghost function Masked(paths: seq<Path>, g: int -> int, v: int): int -> int {
    u => if Under(paths, v, u) then g(u) else 0
  }

  ghost function StrictlyMasked(paths: seq<Path>, g: int -> int, v: int): int -> int {
    u => if u != v && Under(paths, v, u) then g(u) else 0
  }

  /** The sum of g over the subtree of v. */
  ghost function SubtreeSum(paths: seq<Path>, g: int -> int, v: int): int {
    Sum(|paths|, Masked(paths, g, v))
  }

  /** The sum of g over the subtree of v without v itself. */
  ghost function StrictSum(paths: seq<Path>, g: int -> int, v: int): int {
    Sum(|paths|, StrictlyMasked(paths, g, v))
  }

  lemma SubtreeSumSplitsOff(paths: seq<Path>, g: int -> int, v: nat)
    requires v < |paths|
    ensures SubtreeSum(paths, g, v) == g(v) + StrictSum(paths, g, v)
  {
    var self := u => if u == v then g(v) else 0;
    SumSingle(|paths|, self, v);
    SumAdd(|paths|, self, StrictlyMasked(paths, g, v), Masked(paths, g, v));
  }

  // ----- splitting a subtree over the children -----

  lemma ChildAbove(nodes: seq<PCITreeNode>, roots: seq<nat>, paths: seq<Path>, v: nat, u: nat) returns (k: nat)
    requires Forest(nodes, roots, paths) && v < |nodes| && u < |nodes| && u != v && Under(paths, v, u)
    ensures k < |nodes[v].children| && Under(paths, nodes[v].children[k], u)
  {
    var n := |paths[v]|;
    assert paths[v] != paths[u];
    assert n < |paths[u]|;
    var c := PrefixClosed(nodes, roots, paths, u, n + 1);
    assert NodeAgrees(nodes, paths, c) && NodeAgrees(nodes, paths, v);
    var p := nodes[c].parent.value;
    assert paths[p] == paths[u][..n + 1][..n] == paths[u][..n] == paths[v];
    assert p == v;
    assert ChildrenAgree(nodes, v);
    assert c in nodes[v].children;
    k :| 0 <= k < |nodes[v].children| && nodes[v].children[k] == c;
  }

  lemma ChildFacts(nodes: seq<PCITreeNode>, roots: seq<nat>, paths: seq<Path>, v: nat, k: nat)
    requires Forest(nodes, roots, paths) && v < |nodes| && k < |nodes[v].children|
    ensures v < nodes[v].children[k] < |nodes| && nodes[nodes[v].children[k]].parent == Some(v)
    ensures |paths[nodes[v].children[k]]| == |paths[v]| + 1
    ensures paths[v] == paths[nodes[v].children[k]][..|paths[v]|]
  {
    assert ChildrenAgree(nodes, v);
    var c := nodes[v].children[k];
    assert c in nodes[v].children;
    assert NodeAgrees(nodes, paths, c);
  }

  lemma UnderTransitive(paths: seq<Path>, v: int, c: int, u: int)
    requires Under(paths, v, c) && Under(paths, c, u)
    ensures Under(paths, v, u)
  {}

  /** Different children of a node have disjoint subtrees, neither containing the node. */
  lemma ChildrenDisjoint(nodes: seq<PCITreeNode>, roots: seq<nat>, paths: seq<Path>, v: nat, j: nat, k: nat, u: int)
    requires Forest(nodes, roots, paths) && v < |nodes| && j < |nodes[v].children| && k < |nodes[v].children|
    requires Under(paths, nodes[v].children[j], u)
    ensures u != v && Under(paths, v, u)
    ensures Under(paths, nodes[v].children[k], u) <==> j == k
  {
    var c, d := nodes[v].children[j], nodes[v].children[k];
    ChildFacts(nodes, roots, paths, v, j);
    ChildFacts(nodes, roots, paths, v, k);
    UnderTransitive(paths, v, c, u);
    assert ChildrenAgree(nodes, v);
    if j != k && Under(paths, d, u) { assert false; }
  }

  lemma {:induction false} TotalSingle(xs: seq<int>, f: int -> int, k: nat)
    requires k < |xs|
    requires forall i | 0 <= i < |xs| && i != k :: f(xs[i]) == 0
    ensures Total(xs, f) == f(xs[k])
  {
    if k == |xs| - 1 {
      TotalZero(xs[..k], f);
    } else {
      TotalSingle(xs[..|xs| - 1], f, k);
    }
  }

  /** The subtree of v below v is the disjoint union of the subtrees of its children. */
  lemma StrictSumOverChildren(nodes: seq<PCITreeNode>, roots: seq<nat>, paths: seq<Path>, g: int -> int, v: nat)
    requires Forest(nodes, roots, paths) && v < |nodes|
    ensures StrictSum(paths, g, v) == Total(nodes[v].children, c => SubtreeSum(paths, g, c))
  {
    var ch := nodes[v].children;
    var f: int -> int -> int := u => c => Masked(paths, g, c)(u);
    var h := c => SubtreeSum(paths, g, c);
    forall i | 0 <= i < |ch| ensures h(ch[i]) == Sum(|paths|, u => f(u)(ch[i])) {
      SumExt(|paths|, Masked(paths, g, ch[i]), u => f(u)(ch[i]));
    }
    TotalOfSums(ch, |paths|, f, h);
    forall u | 0 <= u < |paths| ensures StrictlyMasked(paths, g, v)(u) == Total(ch, f(u)) {
      OneChildCounts(nodes, roots, paths, g, v, u, f(u));
    }
    SumExt(|paths|, StrictlyMasked(paths, g, v), u => Total(ch, f(u)));
  }

  lemma OneChildCounts(nodes: seq<PCITreeNode>, roots: seq<nat>, paths: seq<Path>, g: int -> int, v: nat, u: nat,
                       f: int -> int)
    requires Forest(nodes, roots, paths) && v < |nodes| && u < |nodes|
    requires forall c :: f(c) == Masked(paths, g, c)(u)
    ensures Total(nodes[v].children, f) == StrictlyMasked(paths, g, v)(u)
  {
    var ch := nodes[v].children;
    if u != v && Under(paths, v, u) {
      var k := ChildAbove(nodes, roots, paths, v, u);
      forall i | 0 <= i < |ch| && i != k ensures f(ch[i]) == 0 {
        ChildrenDisjoint(nodes, roots, paths, v, k, i, u);
      }
      TotalSingle(ch, f, k);
    } else {
      forall i | 0 <= i < |ch| ensures f(ch[i]) == 0 {
        if Under(paths, ch[i], u) { ChildrenDisjoint(nodes, roots, paths, v, i, i, u); }
      }
      TotalZero(ch, f);
    }
  }

  /** The whole forest is the disjoint union of the trees of its roots. */
  lemma SumOverRoots(nodes: seq<PCITreeNode>, roots: seq<nat>, paths: seq<Path>, g: int -> int)
    requires Forest(nodes, roots, paths)
    ensures Sum(|paths|, g) == Total(roots, r => SubtreeSum(paths, g, r))
  {
    var f: int -> int -> int := u => r => Masked(paths, g, r)(u);
    var h := r => SubtreeSum(paths, g, r);
    forall i | 0 <= i < |roots| ensures h(roots[i]) == Sum(|paths|, u => f(u)(roots[i])) {
      SumExt(|paths|, Masked(paths, g, roots[i]), u => f(u)(roots[i]));
    }
    TotalOfSums(roots, |paths|, f, h);
    forall u | 0 <= u < |paths| ensures g(u) == Total(roots, f(u)) {
      var j := RootNumber(nodes, roots, paths, u);
      assert UnderRootNumber(paths, roots, j, u);
      forall i | 0 <= i < |roots| && i != j ensures f(u)(roots[i]) == 0 {
        assert !UnderRootNumber(paths, roots, i, u);
      }
      TotalSingle(roots, f(u), j);
    }
    SumExt(|paths|, g, u => Total(roots, f(u)));
  }

  // ----- selections -----

  ghost function Amount(s: Selection): int -> int {
    u => if 0 <= u < |s| then s[u] else 0
  }

  /** Endpoints selected in the subtree of v. */
  ghost function Taken(paths: seq<Path>, s: Selection, v: int): int {
    SubtreeSum(paths, Amount(s), v)
  }

  /** What the edge above u contributes when its root holds k selected endpoints. */
  ghost function EdgeCost(paths: seq<Path>, s: Selection, k: int): int -> int {
    u => Taken(paths, s, u) * (k - Taken(paths, s, u))
  }

  /** The edges inside the subtree of v. */
  ghost function InnerCost(paths: seq<Path>, s: Selection, v: int, k: int): int {
    StrictSum(paths, EdgeCost(paths, s, k), v)
  }

  /** The edges inside the subtree of v and the one above v. */
  ghost function OuterCost(paths: seq<Path>, s: Selection, v: int, k: int): int {
    SubtreeSum(paths, EdgeCost(paths, s, k), v)
  }

  /** Every forced endpoint is taken, and of the others at most the free ones. */
  ghost predicate Allowed(s: Selection, forced: seq<int>, free: seq<int>) {
    && |s| == |forced| == |free|
    && forall u | 0 <= u < |s| :: forced[u] <= s[u] <= forced[u] + free[u]
  }

  ghost predicate Counts(xs: seq<int>, n: nat) {
    |xs| == n && forall i | 0 <= i < n :: 0 <= xs[i]
  }

  ghost predicate AgreeUnder(paths: seq<Path>, s: Selection, t: Selection, v: int) {
    forall u | 0 <= u < |paths| && Under(paths, v, u) :: Amount(s)(u) == Amount(t)(u)
  }

  /** Taken and the edge costs in a subtree depend on the selection there only. */
  lemma Locality(paths: seq<Path>, s: Selection, t: Selection, v: int, k: int)
    requires AgreeUnder(paths, s, t, v)
    ensures Taken(paths, s, v) == Taken(paths, t, v)
    ensures OuterCost(paths, s, v, k) == OuterCost(paths, t, v, k)
    ensures InnerCost(paths, s, v, k) == InnerCost(paths, t, v, k)
  {
    SumExt(|paths|, Masked(paths, Amount(s), v), Masked(paths, Amount(t), v));
    forall u | 0 <= u < |paths| && Under(paths, v, u) ensures EdgeCost(paths, s, k)(u) == EdgeCost(paths, t, k)(u) {
      forall w | 0 <= w < |paths| ensures Masked(paths, Amount(s), u)(w) == Masked(paths, Amount(t), u)(w) {
        if Under(paths, u, w) { UnderTransitive(paths, v, u, w); }
      }
      SumExt(|paths|, Masked(paths, Amount(s), u), Masked(paths, Amount(t), u));
    }
    SumExt(|paths|, Masked(paths, EdgeCost(paths, s, k), v), Masked(paths, EdgeCost(paths, t, k), v));
    SumExt(|paths|, StrictlyMasked(paths, EdgeCost(paths, s, k), v), StrictlyMasked(paths, EdgeCost(paths, t, k), v));
  }

  lemma TakenMonotone(paths: seq<Path>, s: Selection, v: int, u: int)
    requires Counts(s, |paths|) && Under(paths, v, u)
    ensures 0 <= Taken(paths, s, u) <= Taken(paths, s, v)
  {
    SumNonNegative(|paths|, Masked(paths, Amount(s), u));
    forall w | 0 <= w < |paths| ensures Masked(paths, Amount(s), u)(w) <= Masked(paths, Amount(s), v)(w) {
      if Under(paths, u, w) { UnderTransitive(paths, v, u, w); }
    }
    SumAtMost(|paths|, Masked(paths, Amount(s), u), Masked(paths, Amount(s), v));
  }

  lemma TakenBetween(paths: seq<Path>, s: Selection, lo: Selection, hi: Selection, v: int)
    requires |s| == |lo| == |hi| == |paths|
    requires forall u | 0 <= u < |s| :: lo[u] <= s[u] <= hi[u]
    ensures Taken(paths, lo, v) <= Taken(paths, s, v) <= Taken(paths, hi, v)
  {
    SumAtMost(|paths|, Masked(paths, Amount(lo), v), Masked(paths, Amount(s), v));
    SumAtMost(|paths|, Masked(paths, Amount(s), v), Masked(paths, Amount(hi), v));
  }

  lemma CostsNonNegative(paths: seq<Path>, s: Selection, v: int, k: int)
    requires Counts(s, |paths|) && Taken(paths, s, v) <= k
    ensures 0 <= OuterCost(paths, s, v, k) && 0 <= InnerCost(paths, s, v, k)
  {
    forall u | 0 <= u < |paths| && Under(paths, v, u) ensures 0 <= EdgeCost(paths, s, k)(u) {
      TakenMonotone(paths, s, v, u);
    }
    SumNonNegative(|paths|, Masked(paths, EdgeCost(paths, s, k), v));
    SumNonNegative(|paths|, StrictlyMasked(paths, EdgeCost(paths, s, k), v));
  }

  /** t inside the subtree of c, s everywhere else. */
  ghost function Combine(paths: seq<Path>, s: Selection, t: Selection, c: int): Selection
    requires |s| == |t| == |paths|
  {
    seq(|paths|, u requires 0 <= u < |paths| => if Under(paths, c, u) then t[u] else s[u])
  }

  lemma NothingTaken(paths: seq<Path>, s: Selection, c: int, k: int)
    requires Counts(s, |paths|) && Taken(paths, s, c) <= 0
    ensures Taken(paths, s, c) == 0 && OuterCost(paths, s, c, k) == 0
  {
    SumNonNegative(|paths|, Masked(paths, Amount(s), c));
    forall u | 0 <= u < |paths| ensures Masked(paths, EdgeCost(paths, s, k), c)(u) == 0 {
      if Under(paths, c, u) { TakenMonotone(paths, s, c, u); }
    }
    SumZero(|paths|, Masked(paths, EdgeCost(paths, s, k), c));
  }
}
