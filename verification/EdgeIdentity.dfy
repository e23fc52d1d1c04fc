/**
 The identities behind the PCI lower bound (pci_allocation_bounds.go:91-94): summed over all
 pairs of a selection, the hop counts equal the edge contributions c * (K - c), and the number
 of pairs under separate roots is the number of pairs the roots contribute one after another.
 */
module EdgeIdentity {
  import opened Ordering
  import opened Sums
  import opened Pairs
  import opened PCITopology

  /** Node u lies in the subtree of node v.  An index outside the forest lies nowhere. */
  ghost predicate Under(paths: seq<Path>, v: int, u: int) {
    0 <= v < |paths| && 0 <= u < |paths| && paths[v] <= paths[u]
  }

  /** Distance between two nodes; an index outside the forest stands for an unknown location. */
  ghost function NodeDistance(paths: seq<Path>, u: int, w: int): PCIDistance {
    PathDistance(if 0 <= u < |paths| then Some(paths[u]) else None, if 0 <= w < |paths| then Some(paths[w]) else None)
  }

  ghost function NodeHops(paths: seq<Path>, u: int, w: int): int {
    if NodeDistance(paths, u, w).known then NodeDistance(paths, u, w).hops else 0
  }

  lemma UnderParent(nodes: seq<PCITreeNode>, roots: seq<nat>, paths: seq<Path>, v: int, u: nat)
    requires Forest(nodes, roots, paths) && u < |nodes| && nodes[u].parent.Some?
    ensures Under(paths, v, u) <==> v == u || Under(paths, v, nodes[u].parent.value)
    ensures !Under(paths, u, nodes[u].parent.value)
  {
    assert NodeAgrees(nodes, paths, u);
    if 0 <= v < |paths| && paths[v] <= paths[u] && v != u {
      assert paths[v] != paths[u];
      assert paths[v] == paths[u][..|paths[v]|];
      assert |paths[v]| < |paths[u]|;
      assert paths[u][..|paths[u]| - 1][..|paths[v]|] == paths[u][..|paths[v]|];
    }
  }

  lemma UnderRootIsSelf(nodes: seq<PCITreeNode>, roots: seq<nat>, paths: seq<Path>, v: int, u: nat)
    requires Forest(nodes, roots, paths) && u < |nodes| && nodes[u].parent.None?
    ensures Under(paths, v, u) <==> v == u
  {
    assert NodeAgrees(nodes, paths, u);
    if 0 <= v < |paths| && paths[v] <= paths[u] {
      assert NodeAgrees(nodes, paths, v);
      assert |paths[v]| == 1;
      assert paths[v] == paths[u];
    }
  }

  /** A node has as many ancestors, itself included, as its path has components. */
  lemma {:induction false} AncestorCount(nodes: seq<PCITreeNode>, roots: seq<nat>, paths: seq<Path>, u: nat,
                                         f: int -> int)
    requires Forest(nodes, roots, paths) && u < |nodes|
    requires forall v :: f(v) == if Under(paths, v, u) then 1 else 0
    ensures Sum(|paths|, f) == |paths[u]|
    decreases u
  {
    assert NodeAgrees(nodes, paths, u);
    var self := v => if v == u then 1 else 0;
    SumSingle(|paths|, self, u);
    if nodes[u].parent.None? {
      forall v | 0 <= v < |paths| ensures f(v) == self(v) { UnderRootIsSelf(nodes, roots, paths, v, u); }
      SumExt(|paths|, f, self);
    } else {
      var p := nodes[u].parent.value;
      var above := v => if Under(paths, v, p) then 1 else 0;
      AncestorCount(nodes, roots, paths, p, above);
      forall v | 0 <= v < |paths| ensures f(v) == self(v) + above(v) { UnderParent(nodes, roots, paths, v, u); }
      SumAdd(|paths|, self, above, f);
    }
  }

  // From here on a device x sits at node place(x), which is outside the forest when unknown.

  ghost function Inside(paths: seq<Path>, place: int -> int, v: int): int -> bool {
    x => Under(paths, v, place(x))
  }

  ghost function Beside(nodes: seq<PCITreeNode>, paths: seq<Path>, place: int -> int, v: int): int -> bool {
    x => 0 <= v < |nodes| && Under(paths, nodes[v].root, place(x)) && !Under(paths, v, place(x))
  }

  /** Pairs of devices that the edge above v separates inside v's tree. */
  ghost function Cut(nodes: seq<PCITreeNode>, paths: seq<Path>, place: int -> int, v: int): (int, int) -> int {
    (x, y) => if Across(Inside(paths, place, v), Beside(nodes, paths, place, v), x, y) then 1 else 0
  }

  ghost predicate NodeBeside(nodes: seq<PCITreeNode>, paths: seq<Path>, v: int, u: int) {
    0 <= v < |nodes| && Under(paths, nodes[v].root, u) && !Under(paths, v, u)
  }

  ghost predicate EdgeBetween(nodes: seq<PCITreeNode>, paths: seq<Path>, v: int, u: int, w: int) {
    (Under(paths, v, u) && NodeBeside(nodes, paths, v, w)) || (NodeBeside(nodes, paths, v, u) && Under(paths, v, w))
  }

  lemma CutIsEdgeBetween(nodes: seq<PCITreeNode>, paths: seq<Path>, place: int -> int, v: int, x: int, y: int)
    ensures Cut(nodes, paths, place, v)(x, y) == if EdgeBetween(nodes, paths, v, place(x), place(y)) then 1 else 0
  {}

  lemma UnderRoot(nodes: seq<PCITreeNode>, roots: seq<nat>, paths: seq<Path>, v: nat, u: nat)
    requires Forest(nodes, roots, paths) && v < |nodes| && u < |nodes|
    ensures nodes[v].root < |nodes| && |paths[v]| > 0 && |paths[u]| > 0
    ensures Under(paths, nodes[v].root, u) <==> paths[v][..1] == paths[u][..1]
    ensures Under(paths, nodes[v].root, v)
  {
    assert NodeAgrees(nodes, paths, v);
    assert NodeAgrees(nodes, paths, u);
    assert |paths[nodes[v].root]| == 1;
  }

  lemma UnderImpliesSameRoot(nodes: seq<PCITreeNode>, roots: seq<nat>, paths: seq<Path>, v: nat, u: nat)
    requires Forest(nodes, roots, paths) && v < |nodes| && u < |nodes| && Under(paths, v, u)
    ensures |paths[v]| > 0 && |paths[u]| > 0 && paths[v][..1] == paths[u][..1]
  {
    assert NodeAgrees(nodes, paths, v);
    assert paths[u][..|paths[v]|][..1] == paths[u][..1];
  }

  /** The hop count between two nodes is the number of edges that separate them. */
  lemma HopsAreEdgesBetween(nodes: seq<PCITreeNode>, roots: seq<nat>, paths: seq<Path>, u: int, w: int, f: int -> int)
    requires Forest(nodes, roots, paths)
    requires forall v :: f(v) == if EdgeBetween(nodes, paths, v, u, w) then 1 else 0
    ensures NodeHops(paths, u, w) == Sum(|paths|, f)
  {
    if !(0 <= u < |paths| && 0 <= w < |paths|) {
      SumZero(|paths|, f);
    } else {
      assert NodeAgrees(nodes, paths, u) && NodeAgrees(nodes, paths, w);
      CommonPrefixLongest(paths[u], paths[w], 1);
      if paths[u][..1] != paths[w][..1] {
        forall v | 0 <= v < |paths| ensures f(v) == 0 { NoEdgeAcrossRoots(nodes, roots, paths, u, w, v); }
        SumZero(|paths|, f);
      } else {
        HopsWithinRoot(nodes, roots, paths, u, w, f);
      }
    }
  }

  lemma NoEdgeAcrossRoots(nodes: seq<PCITreeNode>, roots: seq<nat>, paths: seq<Path>, u: nat, w: nat, v: nat)
    requires Forest(nodes, roots, paths) && u < |paths| && w < |paths| && v < |paths|
    requires |paths[u]| > 0 && |paths[w]| > 0 && paths[u][..1] != paths[w][..1]
    ensures !EdgeBetween(nodes, paths, v, u, w)
  {
    UnderRoot(nodes, roots, paths, v, u);
    UnderRoot(nodes, roots, paths, v, w);
    if Under(paths, v, u) { UnderImpliesSameRoot(nodes, roots, paths, v, u); }
    if Under(paths, v, w) { UnderImpliesSameRoot(nodes, roots, paths, v, w); }
  }

  lemma EdgeWithinRoot(nodes: seq<PCITreeNode>, roots: seq<nat>, paths: seq<Path>, u: nat, w: nat, v: nat)
    requires Forest(nodes, roots, paths) && u < |paths| && w < |paths| && v < |paths|
    requires |paths[u]| > 0 && |paths[w]| > 0 && paths[u][..1] == paths[w][..1]
    ensures EdgeBetween(nodes, paths, v, u, w) <==> Under(paths, v, u) != Under(paths, v, w)
  {
    UnderRoot(nodes, roots, paths, v, u);
    UnderRoot(nodes, roots, paths, v, w);
    if Under(paths, v, u) { UnderImpliesSameRoot(nodes, roots, paths, v, u); }
    if Under(paths, v, w) { UnderImpliesSameRoot(nodes, roots, paths, v, w); }
  }

  lemma HopsWithinRoot(nodes: seq<PCITreeNode>, roots: seq<nat>, paths: seq<Path>, u: nat, w: nat, f: int -> int)
    requires Forest(nodes, roots, paths) && u < |paths| && w < |paths|
    requires forall v :: f(v) == if EdgeBetween(nodes, paths, v, u, w) then 1 else 0
    requires |paths[u]| > 0 && |paths[w]| > 0 && paths[u][..1] == paths[w][..1]
    ensures NodeHops(paths, u, w) == Sum(|paths|, f)
  {
    CommonPrefixLongest(paths[u], paths[w], 1);
    var common := CommonPrefix(paths[u], paths[w]);
    var z := PrefixClosed(nodes, roots, paths, u, common);
    var belowU := v => if Under(paths, v, u) then 1 else 0;
    var belowW := v => if Under(paths, v, w) then 1 else 0;
    var belowZ := v => if Under(paths, v, z) then 1 else 0;
    AncestorCount(nodes, roots, paths, u, belowU);
    AncestorCount(nodes, roots, paths, w, belowW);
    AncestorCount(nodes, roots, paths, z, belowZ);
    var ends := v => belowU(v) + belowW(v);
    var partial := v => f(v) + belowZ(v);
    forall v | 0 <= v < |paths| ensures ends(v) == partial(v) + belowZ(v) {
      CommonAncestors(paths, u, w, z, v);
      EdgeWithinRoot(nodes, roots, paths, u, w, v);
    }
    SumAdd(|paths|, belowU, belowW, ends);
    SumAdd(|paths|, f, belowZ, partial);
    SumAdd(|paths|, partial, belowZ, ends);
  }

  lemma CommonAncestors(paths: seq<Path>, u: nat, w: nat, z: nat, v: int)
    requires u < |paths| && w < |paths| && z < |paths|
    requires paths[z] == paths[u][..CommonPrefix(paths[u], paths[w])]
    ensures Under(paths, v, u) && Under(paths, v, w) <==> Under(paths, v, z)
  {}

  // ----- sums over the pairs of a selection -----

  /** How many of the selected devices lie under v. */
  ghost function CountUnder(paths: seq<Path>, xs: seq<int>, place: int -> int, v: int): nat {
    Count(xs, Inside(paths, place, v))
  }

  ghost function Contribution(nodes: seq<PCITreeNode>, paths: seq<Path>, xs: seq<int>, place: int -> int, v: int): int {
    if 0 <= v < |nodes|
    then CountUnder(paths, xs, place, v) *
         (CountUnder(paths, xs, place, nodes[v].root) - CountUnder(paths, xs, place, v))
    else 0
  }

  lemma BesideCount(nodes: seq<PCITreeNode>, roots: seq<nat>, paths: seq<Path>, xs: seq<int>, place: int -> int, v: nat)
    requires Forest(nodes, roots, paths) && v < |nodes|
    ensures Count(xs, Beside(nodes, paths, place, v)) ==
            CountUnder(paths, xs, place, nodes[v].root) - CountUnder(paths, xs, place, v)
  {
    var inside, beside := Inside(paths, place, v), Beside(nodes, paths, place, v);
    var tree := Inside(paths, place, nodes[v].root);
    forall i | 0 <= i < |xs|
      ensures tree(xs[i]) == (inside(xs[i]) || beside(xs[i])) && !(inside(xs[i]) && beside(xs[i])) {
      var u := place(xs[i]);
      if Under(paths, v, u) {
        UnderImpliesSameRoot(nodes, roots, paths, v, u);
        UnderRoot(nodes, roots, paths, v, u);
      }
    }
    CountSplit(xs, inside, beside, tree);
  }

  lemma InsideOrBeside(nodes: seq<PCITreeNode>, paths: seq<Path>, place: int -> int, v: int, x: int)
    ensures !(Inside(paths, place, v)(x) && Beside(nodes, paths, place, v)(x))
  {}

  lemma CutAcross(nodes: seq<PCITreeNode>, paths: seq<Path>, place: int -> int, v: int, x: int, y: int)
    ensures Cut(nodes, paths, place, v)(x, y) ==
            if Across(Inside(paths, place, v), Beside(nodes, paths, place, v), x, y) then 1 else 0
  {}

  lemma CutPairs(nodes: seq<PCITreeNode>, roots: seq<nat>, paths: seq<Path>, xs: seq<int>, place: int -> int, v: nat)
    requires Forest(nodes, roots, paths) && v < |nodes|
    ensures PairSum(xs, Cut(nodes, paths, place, v)) == Contribution(nodes, paths, xs, place, v)
  {
    hide PairSum, Count, Forest, Across, Inside, Beside, Cut;
    forall x { InsideOrBeside(nodes, paths, place, v, x); }
    forall x, y { CutAcross(nodes, paths, place, v, x, y); }
    PairsAcross(xs, Inside(paths, place, v), Beside(nodes, paths, place, v), Cut(nodes, paths, place, v));
    BesideCount(nodes, roots, paths, xs, place, v);
  }

  /** Edge-contribution identity: for any selection, repeats and unknown locations included, the
      hop counts over all pairs sum to c * (K - c) over the edges. */
  lemma TotalHopsIsEdgeSum(nodes: seq<PCITreeNode>, roots: seq<nat>, paths: seq<Path>, xs: seq<int>, place: int -> int,
                           w: (int, int) -> int)
    requires Forest(nodes, roots, paths)
    requires forall i, j | 0 <= i < j < |xs| :: w(xs[j], xs[i]) == NodeHops(paths, place(xs[j]), place(xs[i]))
    ensures PairSum(xs, w) == Sum(|nodes|, v => Contribution(nodes, paths, xs, place, v))
  {
    var cut: int -> (int, int) -> int := v => Cut(nodes, paths, place, v);
    forall i, j | 0 <= i < j < |xs| ensures w(xs[j], xs[i]) == Sum(|nodes|, v => cut(v)(xs[j], xs[i])) {
      forall v { CutIsEdgeBetween(nodes, paths, place, v, xs[j], xs[i]); }
      HopsAreEdgesBetween(nodes, roots, paths, place(xs[j]), place(xs[i]), v => cut(v)(xs[j], xs[i]));
    }
    PairSumOfSums(xs, |nodes|, cut, w);
    forall v | 0 <= v < |nodes| ensures PairSum(xs, cut(v)) == Contribution(nodes, paths, xs, place, v) {
      CutPairs(nodes, roots, paths, xs, place, v);
    }
    SumExt(|nodes|, v => PairSum(xs, cut(v)), v => Contribution(nodes, paths, xs, place, v));
  }

  // ----- pairs under separate roots -----

  ghost function UnderRootNumber(paths: seq<Path>, roots: seq<nat>, j: int, u: int): bool {
    0 <= j < |roots| && Under(paths, roots[j], u)
  }

  /** The number of u's root, or -1 when u is outside the forest. */
  lemma RootNumber(nodes: seq<PCITreeNode>, roots: seq<nat>, paths: seq<Path>, u: int) returns (j: int)
    requires Forest(nodes, roots, paths)
    ensures 0 <= u < |nodes| <==> 0 <= j < |roots|
    ensures forall i :: UnderRootNumber(paths, roots, i, u) <==> 0 <= j < |roots| && i == j
    ensures 0 <= j < |roots| ==> roots[j] < |paths| && |paths[u]| > 0 && paths[roots[j]] == paths[u][..1]
  {
    if 0 <= u < |nodes| {
      UnderRoot(nodes, roots, paths, u, u);
      assert NodeAgrees(nodes, paths, u);
      var r := nodes[u].root;
      assert NodeAgrees(nodes, paths, r);
      assert r in roots;
      j :| 0 <= j < |roots| && roots[j] == r;
      forall i ensures UnderRootNumber(paths, roots, i, u) <==> i == j {
        if UnderRootNumber(paths, roots, i, u) {
          assert roots[i] in roots;
          assert NodeAgrees(nodes, paths, roots[i]);
          assert paths[roots[i]] == paths[u][..1] == paths[r];
          assert roots[i] == r;
        }
      }
    } else {
      j := -1;
    }
  }

  ghost function Earlier(paths: seq<Path>, roots: seq<nat>, place: int -> int, j: int): int -> bool {
    x => exists i :: i < j && UnderRootNumber(paths, roots, i, place(x))
  }

  ghost function Here(paths: seq<Path>, roots: seq<nat>, place: int -> int, j: int): int -> bool {
    x => UnderRootNumber(paths, roots, j, place(x))
  }

  /** Pairs of devices of which one is under root j and the other under an earlier root. */
  ghost function SeparatedAt(paths: seq<Path>, roots: seq<nat>, place: int -> int, j: int): (int, int) -> int {
    (x, y) => if Across(Earlier(paths, roots, place, j), Here(paths, roots, place, j), x, y) then 1 else 0
  }

  /** Selected devices under one of the first j roots. */
  ghost function CountUnderFirst(paths: seq<Path>, roots: seq<nat>, xs: seq<int>, place: int -> int, j: int): nat {
    Count(xs, Earlier(paths, roots, place, j))
  }

  lemma EarlierStep(nodes: seq<PCITreeNode>, roots: seq<nat>, paths: seq<Path>, place: int -> int, j: nat, x: int)
    requires Forest(nodes, roots, paths) && j < |roots|
    ensures Here(paths, roots, place, j)(x) == Inside(paths, place, roots[j])(x)
    ensures Earlier(paths, roots, place, j + 1)(x) == (Earlier(paths, roots, place, j)(x) ||
                                                       Here(paths, roots, place, j)(x))
    ensures !(Earlier(paths, roots, place, j)(x) && Here(paths, roots, place, j)(x))
  {
    var n := RootNumber(nodes, roots, paths, place(x));
  }

  lemma CountUnderFirstStep(nodes: seq<PCITreeNode>, roots: seq<nat>, paths: seq<Path>, xs: seq<int>, place: int -> int,
                            j: nat)
    requires Forest(nodes, roots, paths) && j < |roots|
    ensures CountUnderFirst(paths, roots, xs, place, j + 1) ==
            CountUnderFirst(paths, roots, xs, place, j) + CountUnder(paths, xs, place, roots[j])
  {
    forall x { EarlierStep(nodes, roots, paths, place, j, x); }
    CountSplit(xs, Earlier(paths, roots, place, j), Inside(paths, place, roots[j]),
               Earlier(paths, roots, place, j + 1));
  }

  lemma CountUnderNoRoots(paths: seq<Path>, roots: seq<nat>, xs: seq<int>, place: int -> int)
    ensures CountUnderFirst(paths, roots, xs, place, 0) == 0
  {
    var none := 0;
    forall x ensures !Earlier(paths, roots, place, none)(x) {
      forall i | i < none ensures !UnderRootNumber(paths, roots, i, place(x)) {}
    }
    CountZero(xs, Earlier(paths, roots, place, none));
  }

  /** Pairs with one device under root j and the other under an earlier root. */
  ghost function CrossPairs(paths: seq<Path>, roots: seq<nat>, xs: seq<int>, place: int -> int, j: int): int {
    if 0 <= j < |roots|
    then CountUnderFirst(paths, roots, xs, place, j) * CountUnder(paths, xs, place, roots[j])
    else 0
  }

  lemma CrossPairsAt(nodes: seq<PCITreeNode>, roots: seq<nat>, paths: seq<Path>, xs: seq<int>, place: int -> int,
                     j: nat)
    requires Forest(nodes, roots, paths) && j < |roots|
    ensures PairSum(xs, SeparatedAt(paths, roots, place, j)) == CrossPairs(paths, roots, xs, place, j)
  {
    forall x { EarlierStep(nodes, roots, paths, place, j, x); }
    PairsAcross(xs, Earlier(paths, roots, place, j), Here(paths, roots, place, j), SeparatedAt(paths, roots, place, j));
    CountExt(xs, Here(paths, roots, place, j), Inside(paths, place, roots[j]));
  }

  ghost predicate RootBetween(paths: seq<Path>, roots: seq<nat>, j: int, u: int, w: int) {
    (UnderRootNumber(paths, roots, j, w) && exists i :: i < j && UnderRootNumber(paths, roots, i, u)) ||
    (UnderRootNumber(paths, roots, j, u) && exists i :: i < j && UnderRootNumber(paths, roots, i, w))
  }

  lemma SeparatedIsRootBetween(paths: seq<Path>, roots: seq<nat>, place: int -> int, j: int, x: int, y: int)
    ensures SeparatedAt(paths, roots, place, j)(x, y) == if RootBetween(paths, roots, j, place(x), place(y)) then 1
            else 0
  {}

  lemma SeparatedOnce(nodes: seq<PCITreeNode>, roots: seq<nat>, paths: seq<Path>, u: int, w: int, f: int -> int)
    requires Forest(nodes, roots, paths)
    requires forall j :: f(j) == if RootBetween(paths, roots, j, u, w) then 1 else 0
    ensures Sum(|roots|, f) == if NodeDistance(paths, u, w).separateRoots then 1 else 0
  {
    var m := RootNumber(nodes, roots, paths, u);
    var n := RootNumber(nodes, roots, paths, w);
    if 0 <= m < |roots| && 0 <= n < |roots| {
      assert NodeAgrees(nodes, paths, u) && NodeAgrees(nodes, paths, w);
      CommonPrefixLongest(paths[u], paths[w], 1);
      assert UnderRootNumber(paths, roots, m, u) && UnderRootNumber(paths, roots, n, w);
      if m == n {
        SumZero(|roots|, f);
      } else {
        DifferentRoots(nodes, roots, paths, m, n);
        SumSingle(|roots|, f, Max(m, n));
      }
    } else {
      SumZero(|roots|, f);
    }
  }

  lemma DifferentRoots(nodes: seq<PCITreeNode>, roots: seq<nat>, paths: seq<Path>, m: nat, n: nat)
    requires Forest(nodes, roots, paths) && m < |roots| && n < |roots| && m != n
    ensures roots[m] < |paths| && roots[n] < |paths| && paths[roots[m]] != paths[roots[n]]
  {
    assert roots[m] in roots && roots[n] in roots;
    assert roots[m] != roots[n];
  }

  /** The pairs under separate roots, counted root by root. */
  lemma SeparatePairsIsRootSum(nodes: seq<PCITreeNode>, roots: seq<nat>, paths: seq<Path>, xs: seq<int>,
                               place: int -> int, w: (int, int) -> int)
    requires Forest(nodes, roots, paths)
    requires forall i, j | 0 <= i < j < |xs| ::
      w(xs[j], xs[i]) == if NodeDistance(paths, place(xs[j]), place(xs[i])).separateRoots then 1 else 0
    ensures PairSum(xs, w) == Sum(|roots|, j => CrossPairs(paths, roots, xs, place, j))
  {
    var sep: int -> (int, int) -> int := j => SeparatedAt(paths, roots, place, j);
    forall i, j | 0 <= i < j < |xs| ensures w(xs[j], xs[i]) == Sum(|roots|, k => sep(k)(xs[j], xs[i])) {
      forall k { SeparatedIsRootBetween(paths, roots, place, k, xs[j], xs[i]); }
      SeparatedOnce(nodes, roots, paths, place(xs[j]), place(xs[i]), k => sep(k)(xs[j], xs[i]));
    }
    PairSumOfSums(xs, |roots|, sep, w);
    forall j | 0 <= j < |roots| ensures PairSum(xs, sep(j)) == CrossPairs(paths, roots, xs, place, j) {
      CrossPairsAt(nodes, roots, paths, xs, place, j);
    }
    SumExt(|roots|, j => PairSum(xs, sep(j)), j => CrossPairs(paths, roots, xs, place, j));
  }
}
