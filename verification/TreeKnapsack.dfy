/**
 pciSubtreeCosts (pci_allocation_bounds.go:89-130): the knapsack over a PCI subtree.  For every
 number of endpoints taken in the subtree it gives the least edge cost of the subtree.
 */
module TreeKnapsack {
  import opened Sums
  import opened Machine
  import opened PCITopology
  import opened EdgeIdentity
  import opened Subtrees

  // ----- what the knapsack computes -----

  ghost predicate Reached(cells: seq<int>, t: int, paths: seq<Path>, v: int, k: int, forced: seq<int>, free: seq<int>)
    requires 0 <= t < |cells|
  {
    exists s :: Allowed(s, forced, free) && Taken(paths, s, v) == t && InnerCost(paths, s, v, k) == cells[t]
  }

  /** cells[t] is the least inner cost of v over the allowed selections that take t endpoints in
      its subtree, or the sentinel when every such cost reaches the sentinel or there is none. */
  ghost predicate CellsOf(cells: seq<int>, paths: seq<Path>, v: int, k: int, forced: seq<int>, free: seq<int>) {
    && (forall t | 0 <= t < |cells| :: 0 <= cells[t] <= IMPOSSIBLE_PCI_COST)
    && (forall s | Allowed(s, forced, free) && 0 <= Taken(paths, s, v) < |cells| ::
          cells[Taken(paths, s, v)] <= InnerCost(paths, s, v, k))
    && (forall t | 0 <= t < |cells| && cells[t] < IMPOSSIBLE_PCI_COST ::
          Reached(cells, t, paths, v, k, forced, free))
  }

  /** Endpoints taken at v and under its first j children. */
  ghost function StageTaken(nodes: seq<PCITreeNode>, paths: seq<Path>, s: Selection, v: nat, j: nat): int
    requires v < |nodes| && j <= |nodes[v].children|
  {
    Amount(s)(v) + Total(nodes[v].children[..j], c => Taken(paths, s, c))
  }

  /** The cost of the edges to and below the first j children of v. */
  ghost function StageCost(nodes: seq<PCITreeNode>, paths: seq<Path>, s: Selection, v: nat, j: nat, k: int): int
    requires v < |nodes| && j <= |nodes[v].children|
  {
    Total(nodes[v].children[..j], c => OuterCost(paths, s, c, k))
  }

  ghost predicate StageReached(cells: seq<int>, t: int, nodes: seq<PCITreeNode>, paths: seq<Path>, v: nat, j: nat,
                               k: int, forced: seq<int>, free: seq<int>)
    requires v < |nodes| && j <= |nodes[v].children| && 0 <= t < |cells|
  {
    exists s :: Allowed(s, forced, free) && StageTaken(nodes, paths, s, v, j) == t &&
      StageCost(nodes, paths, s, v, j, k) == cells[t]
  }

  ghost predicate StageCells(cells: seq<int>, nodes: seq<PCITreeNode>, paths: seq<Path>, v: nat, j: nat, k: int,
                             forced: seq<int>, free: seq<int>)
    requires v < |nodes| && j <= |nodes[v].children|
  {
    && (forall t | 0 <= t < |cells| :: 0 <= cells[t] <= IMPOSSIBLE_PCI_COST)
    && (forall s | Allowed(s, forced, free) && 0 <= StageTaken(nodes, paths, s, v, j) < |cells| ::
          cells[StageTaken(nodes, paths, s, v, j)] <= StageCost(nodes, paths, s, v, j, k))
    && (forall t | 0 <= t < |cells| && cells[t] < IMPOSSIBLE_PCI_COST ::
          StageReached(cells, t, nodes, paths, v, j, k, forced, free))
  }

  /** Room left at v and its first j children, up to the table size. */
  ghost predicate StageRoom(nodes: seq<PCITreeNode>, paths: seq<Path>, v: nat, j: nat, room: int, limit: int,
                            forced: seq<int>, free: seq<int>)
    requires v < |nodes| && j <= |nodes[v].children|
  {
    forall s | Allowed(s, forced, free) && StageTaken(nodes, paths, s, v, j) <= limit ::
      StageTaken(nodes, paths, s, v, j) <= room
  }

  ghost function AddSeqs(a: seq<int>, b: seq<int>): seq<int>
    requires |a| == |b|
  {
    seq(|a|, i requires 0 <= i < |a| => a[i] + b[i])
  }

  /** The inputs of the knapsack: forced and free endpoints per node, and their subtree totals. */
  ghost predicate Tables(nodes: seq<PCITreeNode>, roots: seq<nat>, paths: seq<Path>,
                         forced: seq<int>, free: seq<int>, forcedSubtree: seq<int>, capacity: seq<int>)
  {
    && Forest(nodes, roots, paths)
    && Counts(forced, |nodes|) && Counts(free, |nodes|)
    && |forcedSubtree| == |capacity| == |nodes|
    && (forall v | 0 <= v < |nodes| :: forcedSubtree[v] == Taken(paths, forced, v))
    && (forall v | 0 <= v < |nodes| :: capacity[v] == Taken(paths, AddSeqs(forced, free), v))
  }

  lemma TableSizes(nodes: seq<PCITreeNode>, roots: seq<nat>, paths: seq<Path>,
                   forced: seq<int>, free: seq<int>, forcedSubtree: seq<int>, capacity: seq<int>)
    requires Tables(nodes, roots, paths, forced, free, forcedSubtree, capacity)
    ensures |forced| == |free| == |forcedSubtree| == |capacity| == |nodes| == |paths|
    ensures Counts(forced, |forced|) && Counts(free, |free|) && Forest(nodes, roots, paths)
    ensures forall i | 0 <= i < |roots| :: roots[i] < |nodes|
  {
    forall i | 0 <= i < |roots| ensures roots[i] < |nodes| { assert roots[i] in roots; }
  }

  lemma AllowedCounts(s: Selection, forced: seq<int>, free: seq<int>)
    requires Allowed(s, forced, free) && Counts(forced, |s|)
    ensures Counts(s, |s|)
  {}

  lemma TakenWithinCapacity(nodes: seq<PCITreeNode>, roots: seq<nat>, paths: seq<Path>, s: Selection, v: nat,
                            forced: seq<int>, free: seq<int>, forcedSubtree: seq<int>, capacity: seq<int>)
    requires Tables(nodes, roots, paths, forced, free, forcedSubtree, capacity)
    requires Allowed(s, forced, free) && v < |nodes|
    ensures 0 <= forcedSubtree[v] <= Taken(paths, s, v) <= capacity[v]
  {
    TakenBetween(paths, s, forced, AddSeqs(forced, free), v);
    SumNonNegative(|paths|, Masked(paths, Amount(forced), v));
  }

  // ----- the stages -----

  lemma StageStep(nodes: seq<PCITreeNode>, paths: seq<Path>, s: Selection, v: nat, j: nat, k: int)
    requires v < |nodes| && j < |nodes[v].children|
    ensures StageTaken(nodes, paths, s, v, j + 1) == StageTaken(nodes, paths, s, v, j) +
            Taken(paths, s, nodes[v].children[j])
    ensures StageCost(nodes, paths, s, v, j + 1, k) == StageCost(nodes, paths, s, v, j, k) +
            OuterCost(paths, s, nodes[v].children[j], k)
  {
    assert nodes[v].children[..j + 1][..j] == nodes[v].children[..j];
  }

  /** The outer cost of a child: its own edge and the edges inside. */
  lemma OuterCostSplits(paths: seq<Path>, s: Selection, c: nat, k: int)
    requires c < |paths|
    ensures OuterCost(paths, s, c, k) == Taken(paths, s, c) * (k - Taken(paths, s, c)) + InnerCost(paths, s, c, k)
  {
    SubtreeSumSplitsOff(paths, EdgeCost(paths, s, k), c);
  }

  lemma FirstStage(nodes: seq<PCITreeNode>, paths: seq<Path>, cells: seq<int>, v: nat, k: int, room: int,
                   forced: seq<int>, free: seq<int>)
    requires v < |nodes| && Counts(forced, |nodes|) && Counts(free, |nodes|)
    requires forall t | 0 <= t < |cells| ::
             cells[t] == if forced[v] <= t <= forced[v] + free[v] then 0 else IMPOSSIBLE_PCI_COST
    requires room == Min(forced[v] + free[v], k) && |cells| <= k + 1
    ensures StageCells(cells, nodes, paths, v, 0, k, forced, free)
    ensures StageRoom(nodes, paths, v, 0, room, |cells| - 1, forced, free)
  {
    assert nodes[v].children[..0] == [];
    forall t | 0 <= t < |cells| && cells[t] < IMPOSSIBLE_PCI_COST
      ensures StageReached(cells, t, nodes, paths, v, 0, k, forced, free)
    {
      var s := forced[v := t];
      assert Allowed(s, forced, free) && StageTaken(nodes, paths, s, v, 0) == t &&
        StageCost(nodes, paths, s, v, 0, k) == cells[t];
    }
  }

  /** After the last child the stage is the whole subtree. */
  lemma LastStage(nodes: seq<PCITreeNode>, roots: seq<nat>, paths: seq<Path>, s: Selection, v: nat, k: int)
    requires Forest(nodes, roots, paths) && v < |nodes|
    ensures StageTaken(nodes, paths, s, v, |nodes[v].children|) == Taken(paths, s, v)
    ensures StageCost(nodes, paths, s, v, |nodes[v].children|, k) == InnerCost(paths, s, v, k)
  {
    var ch := nodes[v].children;
    assert ch[..|ch|] == ch;
    SubtreeSumSplitsOff(paths, Amount(s), v);
    StrictSumOverChildren(nodes, roots, paths, Amount(s), v);
    StrictSumOverChildren(nodes, roots, paths, EdgeCost(paths, s, k), v);
    TotalExt(ch, c => Taken(paths, s, c), c => SubtreeSum(paths, Amount(s), c));
    TotalExt(ch, c => OuterCost(paths, s, c, k), c => SubtreeSum(paths, EdgeCost(paths, s, k), c));
  }

  /** The selections of the first j children and of child j combine freely. */
  lemma CombineStages(nodes: seq<PCITreeNode>, roots: seq<nat>, paths: seq<Path>, s: Selection, t: Selection, v: nat,
                      j: nat, k: int)
    requires Forest(nodes, roots, paths) && v < |nodes| && j < |nodes[v].children|
    requires |s| == |t| == |paths|
    ensures var c := nodes[v].children[j];
            var st := Combine(paths, s, t, c);
            StageTaken(nodes, paths, st, v, j) == StageTaken(nodes, paths, s, v, j) &&
            StageCost(nodes, paths, st, v, j, k) == StageCost(nodes, paths, s, v, j, k) &&
            Taken(paths, st, c) == Taken(paths, t, c) && InnerCost(paths, st, c, k) == InnerCost(paths, t, c, k)
  {
    var ch := nodes[v].children;
    var c := ch[j];
    var st := Combine(paths, s, t, c);
    Locality(paths, st, t, c, k);
    forall i | 0 <= i < j ensures Taken(paths, st, ch[i]) == Taken(paths, s, ch[i]) &&
                                  OuterCost(paths, st, ch[i], k) == OuterCost(paths, s, ch[i], k) {
      forall u | 0 <= u < |paths| && Under(paths, ch[i], u) ensures Amount(st)(u) == Amount(s)(u) {
        ChildrenDisjoint(nodes, roots, paths, v, i, j, u);
      }
      Locality(paths, st, s, ch[i], k);
    }
    if Under(paths, c, v) { ChildrenDisjoint(nodes, roots, paths, v, j, j, v); }
    TotalExt(ch[..j], c => Taken(paths, st, c), c => Taken(paths, s, c));
    TotalExt(ch[..j], c => OuterCost(paths, st, c, k), c => OuterCost(paths, s, c, k));
  }

  // ----- adding one child: the min-plus convolution of two tables -----

  ghost predicate Usable(costs: seq<int>, child: seq<int>, b: int, c: int, room: int, least: int, limit: int) {
    && 0 <= b <= room && b < |costs| && least <= c < |child| && 0 <= c && b + c <= limit
    && costs[b] != IMPOSSIBLE_PCI_COST && child[c] != IMPOSSIBLE_PCI_COST
  }

  ghost function Joined(costs: seq<int>, child: seq<int>, b: int, c: int, k: int): int
    requires 0 <= b < |costs| && 0 <= c < |child|
  {
    costs[b] + child[c] + c * (k - c)
  }

  ghost predicate JoinedCell(next: seq<int>, costs: seq<int>, child: seq<int>, t: int, room: int, least: int,
                             limit: int, k: int)
    requires 0 <= t < |next|
  {
    && 0 <= next[t] <= IMPOSSIBLE_PCI_COST
    && (next[t] < IMPOSSIBLE_PCI_COST ==>
          exists b, c :: Usable(costs, child, b, c, room, least, limit) && b + c == t &&
            next[t] == Joined(costs, child, b, c, k))
  }

  ghost predicate JoinedTable(next: seq<int>, costs: seq<int>, child: seq<int>, room: int, least: int, limit: int,
                              k: int) {
    && |next| == limit + 1
    && (forall t | 0 <= t <= limit :: JoinedCell(next, costs, child, t, room, least, limit, k))
    && (forall b, c | Usable(costs, child, b, c, room, least, limit) :: next[b + c] <= Joined(costs, child, b, c, k))
  }

  lemma JoinedNonNegative(costs: seq<int>, child: seq<int>, b: int, c: int, k: int)
    requires 0 <= b < |costs| && 0 <= c < |child| <= k + 1 && 0 <= costs[b] && 0 <= child[c]
    ensures 0 <= Joined(costs, child, b, c, k)
  {
    ProductNonNegative(c, k - c);
  }

  /** Every sum the join forms stays in the machine range. */
  ghost predicate JoinedSumsFit(costs: seq<int>, child: seq<int>, room: int, least: int, limit: int, k: int) {
    forall b, c | Usable(costs, child, b, c, room, least, limit) :: 0 <= Joined(costs, child, b, c, k) <= MAX_INT
  }

  lemma JoinedSumsInRange(costs: seq<int>, child: seq<int>, room: int, least: int, limit: int, k: int, nodeCount: nat)
    requires forall t | 0 <= t < |costs| :: 0 <= costs[t] <= IMPOSSIBLE_PCI_COST
    requires forall t | 0 <= t < |child| :: 0 <= child[t] <= IMPOSSIBLE_PCI_COST
    requires |child| <= k + 1 && FitsMachine(nodeCount, k)
    ensures JoinedSumsFit(costs, child, room, least, limit, k)
  {
    hide FitsMachine;
    forall b, c | Usable(costs, child, b, c, room, least, limit) ensures 0 <= Joined(costs, child, b, c, k) <= MAX_INT {
      JoinedNonNegative(costs, child, b, c, k);
      IntermediateSumFits(costs[b], child[c], c, k, nodeCount);
    }
  }

  lemma JoinedSumInRange(costs: seq<int>, child: seq<int>, room: int, least: int, limit: int, k: int, b: int, c: int)
    requires JoinedSumsFit(costs, child, room, least, limit, k) && Usable(costs, child, b, c, room, least, limit)
    ensures 0 <= Joined(costs, child, b, c, k) <= MAX_INT
  {}

  lemma StageLower(nodes: seq<PCITreeNode>, roots: seq<nat>, paths: seq<Path>, v: nat, j: nat, k: int, s: Selection,
                   forced: seq<int>, free: seq<int>, forcedSubtree: seq<int>, capacity: seq<int>,
                   costs: seq<int>, child: seq<int>, next: seq<int>, room: int, limit: int)
    requires Tables(nodes, roots, paths, forced, free, forcedSubtree, capacity)
    requires v < |nodes| && j < |nodes[v].children| && nodes[v].children[j] < |nodes|
    requires StageCells(costs, nodes, paths, v, j, k, forced, free) && |costs| == limit + 1 <= k + 1
    requires StageRoom(nodes, paths, v, j, room, limit, forced, free)
    requires CellsOf(child, paths, nodes[v].children[j], k, forced, free)
    requires |child| == Min(capacity[nodes[v].children[j]], k) + 1
    requires JoinedTable(next, costs, child, room, forcedSubtree[nodes[v].children[j]], limit, k)
    requires Allowed(s, forced, free) && 0 <= StageTaken(nodes, paths, s, v, j + 1) <= limit
    ensures next[StageTaken(nodes, paths, s, v, j + 1)] <= StageCost(nodes, paths, s, v, j + 1, k)
  {
    hide Tables, StageTaken, StageCost, Taken, InnerCost, JoinedTable;
    TableSizes(nodes, roots, paths, forced, free, forcedSubtree, capacity);
    var c := nodes[v].children[j];
    StageStep(nodes, paths, s, v, j, k);
    TakenWithinCapacity(nodes, roots, paths, s, c, forced, free, forcedSubtree, capacity);
    StageNonNegative(nodes, paths, s, v, j, forced, free);
    OuterCostSplits(paths, s, c, k);
    var b, t := StageTaken(nodes, paths, s, v, j), Taken(paths, s, c);
    JoinedAtMost(costs, child, next, b, t, room, forcedSubtree[c], limit, k,
                 StageCost(nodes, paths, s, v, j, k), InnerCost(paths, s, c, k));
  }

  /** A joined cell is below every pair of costs that its parts are below. */
  lemma JoinedAtMost(costs: seq<int>, child: seq<int>, next: seq<int>, b: int, t: int, room: int, least: int,
                     limit: int, k: int, costSoFar: int, innerCost: int)
    requires JoinedTable(next, costs, child, room, least, limit, k)
    requires 0 <= b <= room && b < |costs| && 0 <= least <= t < |child| <= k + 1 && b + t <= limit
    requires 0 <= costs[b] <= costSoFar && 0 <= child[t] <= innerCost
    ensures next[b + t] <= costSoFar + (t * (k - t) + innerCost)
  {
    assert JoinedCell(next, costs, child, b + t, room, least, limit, k);
    ProductNonNegative(t, k - t);
    if costs[b] != IMPOSSIBLE_PCI_COST && child[t] != IMPOSSIBLE_PCI_COST {
      assert Usable(costs, child, b, t, room, least, limit);
    }
  }

  lemma StageNonNegative(nodes: seq<PCITreeNode>, paths: seq<Path>, s: Selection, v: nat, j: nat, forced: seq<int>,
                         free: seq<int>)
    requires v < |nodes| && j <= |nodes[v].children| && Allowed(s, forced, free) && Counts(forced, |s|)
    ensures 0 <= StageTaken(nodes, paths, s, v, j)
  {
    var ch := nodes[v].children[..j];
    forall i | 0 <= i < |ch| ensures 0 <= Taken(paths, s, ch[i]) {
      SumNonNegative(|paths|, Masked(paths, Amount(s), ch[i]));
    }
    TotalAtMost(ch, c => 0, c => Taken(paths, s, c));
    ConstantZero(ch);
  }

  lemma {:induction false} ConstantZero(xs: seq<int>)
    ensures Total(xs, c => 0) == 0
  {
    if |xs| > 0 {
      ConstantZero(xs[..|xs| - 1]);
      TotalExt(xs[..|xs| - 1], c => 0, c => 0);
    }
  }

  lemma CombinedSelection(nodes: seq<PCITreeNode>, roots: seq<nat>, paths: seq<Path>, s1: Selection, s2: Selection,
                          v: nat, j: nat, k: int, forced: seq<int>, free: seq<int>, n: int) returns (s: Selection)
    requires Forest(nodes, roots, paths) && v < |nodes| && j < |nodes[v].children| && nodes[v].children[j] < |nodes|
    requires Allowed(s1, forced, free) && Allowed(s2, forced, free) && |forced| == |nodes|
    requires Taken(paths, s2, nodes[v].children[j]) == n
    ensures Allowed(s, forced, free)
    ensures StageTaken(nodes, paths, s, v, j + 1) == StageTaken(nodes, paths, s1, v, j) + n
    ensures StageCost(nodes, paths, s, v, j + 1, k) ==
            StageCost(nodes, paths, s1, v, j, k) + InnerCost(paths, s2, nodes[v].children[j], k) + n * (k - n)
  {
    var c := nodes[v].children[j];
    s := Combine(paths, s1, s2, c);
    assert Allowed(s, forced, free);
    hide Allowed, Forest, InnerCost, OuterCost, Taken, StageCost, StageTaken;
    CombineStages(nodes, roots, paths, s1, s2, v, j, k);
    StageStep(nodes, paths, s, v, j, k);
    OuterCostSplits(paths, s, c, k);
  }

  lemma StageAttained(nodes: seq<PCITreeNode>, roots: seq<nat>, paths: seq<Path>, v: nat, j: nat, k: int, t: int,
                      forced: seq<int>, free: seq<int>,
                      costs: seq<int>, child: seq<int>, next: seq<int>, room: int, least: int, limit: int)
    requires Forest(nodes, roots, paths) && |forced| == |free| == |nodes|
    requires v < |nodes| && j < |nodes[v].children| && nodes[v].children[j] < |nodes|
    requires StageCells(costs, nodes, paths, v, j, k, forced, free)
    requires CellsOf(child, paths, nodes[v].children[j], k, forced, free)
    requires JoinedTable(next, costs, child, room, least, limit, k)
    requires 0 <= t <= limit && next[t] < IMPOSSIBLE_PCI_COST
    ensures StageReached(next, t, nodes, paths, v, j + 1, k, forced, free)
  {
    var c := nodes[v].children[j];
    var b, n := JoinedFrom(costs, child, next, t, room, least, limit, k);
    assert StageReached(costs, b, nodes, paths, v, j, k, forced, free);
    assert Reached(child, n, paths, c, k, forced, free);
    ReachedTogether(nodes, roots, paths, v, j, k, t, forced, free, costs, child, next, b, n);
  }

  lemma JoinedFrom(costs: seq<int>, child: seq<int>, next: seq<int>, t: int, room: int, least: int, limit: int, k: int)
    returns (b: int, n: int)
    requires JoinedTable(next, costs, child, room, least, limit, k)
    requires 0 <= t <= limit && next[t] < IMPOSSIBLE_PCI_COST
    ensures Usable(costs, child, b, n, room, least, limit) && b + n == t && next[t] == Joined(costs, child, b, n, k)
  {
    assert JoinedCell(next, costs, child, t, room, least, limit, k);
    b, n :| Usable(costs, child, b, n, room, least, limit) && b + n == t && next[t] == Joined(costs, child, b, n, k);
  }

  lemma ReachedTogether(nodes: seq<PCITreeNode>, roots: seq<nat>, paths: seq<Path>, v: nat, j: nat, k: int, t: int,
                        forced: seq<int>, free: seq<int>, costs: seq<int>, child: seq<int>, next: seq<int>, b: int,
                        n: int)
    requires Forest(nodes, roots, paths) && |forced| == |free| == |nodes|
    requires v < |nodes| && j < |nodes[v].children| && nodes[v].children[j] < |nodes|
    requires 0 <= b < |costs| && StageReached(costs, b, nodes, paths, v, j, k, forced, free)
    requires 0 <= n < |child| && Reached(child, n, paths, nodes[v].children[j], k, forced, free)
    requires 0 <= t < |next| && b + n == t && next[t] == Joined(costs, child, b, n, k)
    ensures StageReached(next, t, nodes, paths, v, j + 1, k, forced, free)
  {
    var c := nodes[v].children[j];
    var s1 :| Allowed(s1, forced, free) && StageTaken(nodes, paths, s1, v, j) == b &&
      StageCost(nodes, paths, s1, v, j, k) == costs[b];
    var s2 :| Allowed(s2, forced, free) && Taken(paths, s2, c) == n && InnerCost(paths, s2, c, k) == child[n];
    var s := CombinedSelection(nodes, roots, paths, s1, s2, v, j, k, forced, free, n);
    var j' := j + 1;
    assert StageTaken(nodes, paths, s, v, j') == t;
    assert StageCost(nodes, paths, s, v, j', k) == next[t];
  }

  /** Joining a child's table keeps the stage table exact. */
  lemma NextStage(nodes: seq<PCITreeNode>, roots: seq<nat>, paths: seq<Path>, v: nat, j: nat, k: int,
                  forced: seq<int>, free: seq<int>, forcedSubtree: seq<int>, capacity: seq<int>,
                  costs: seq<int>, child: seq<int>, next: seq<int>, room: int, limit: int)
    requires Tables(nodes, roots, paths, forced, free, forcedSubtree, capacity)
    requires v < |nodes| && j < |nodes[v].children| && nodes[v].children[j] < |nodes|
    requires StageCells(costs, nodes, paths, v, j, k, forced, free) && |costs| == limit + 1 <= k + 1
    requires StageRoom(nodes, paths, v, j, room, limit, forced, free)
    requires CellsOf(child, paths, nodes[v].children[j], k, forced, free)
    requires |child| == Min(capacity[nodes[v].children[j]], k) + 1
    requires JoinedTable(next, costs, child, room, forcedSubtree[nodes[v].children[j]], limit, k)
    ensures StageCells(next, nodes, paths, v, j + 1, k, forced, free)
    ensures StageRoom(nodes, paths, v, j + 1, Min(limit, room + capacity[nodes[v].children[j]]), limit, forced, free)
  {
    var c := nodes[v].children[j];
    forall t | 0 <= t < |next| ensures 0 <= next[t] <= IMPOSSIBLE_PCI_COST {
      assert JoinedCell(next, costs, child, t, room, forcedSubtree[c], limit, k);
    }
    forall s | Allowed(s, forced, free) && 0 <= StageTaken(nodes, paths, s, v, j + 1) < |next|
      ensures next[StageTaken(nodes, paths, s, v, j + 1)] <= StageCost(nodes, paths, s, v, j + 1, k)
    {
      StageLower(nodes, roots, paths, v, j, k, s, forced, free, forcedSubtree, capacity, costs, child, next, room,
                 limit);
    }
    forall t | 0 <= t < |next| && next[t] < IMPOSSIBLE_PCI_COST
      ensures StageReached(next, t, nodes, paths, v, j + 1, k, forced, free)
    {
      StageAttained(nodes, roots, paths, v, j, k, t, forced, free, costs, child, next, room, forcedSubtree[c], limit);
    }
    forall s | Allowed(s, forced, free) && StageTaken(nodes, paths, s, v, j + 1) <= limit
      ensures StageTaken(nodes, paths, s, v, j + 1) <= Min(limit, room + capacity[c])
    {
      StageStep(nodes, paths, s, v, j, k);
      TakenWithinCapacity(nodes, roots, paths, s, c, forced, free, forcedSubtree, capacity);
    }
  }

  /** A child without capacity changes nothing. */
  lemma EmptyChild(nodes: seq<PCITreeNode>, roots: seq<nat>, paths: seq<Path>, v: nat, j: nat, k: int,
                   forced: seq<int>, free: seq<int>, forcedSubtree: seq<int>, capacity: seq<int>,
                   costs: seq<int>, room: int, limit: int)
    requires Tables(nodes, roots, paths, forced, free, forcedSubtree, capacity)
    requires v < |nodes| && j < |nodes[v].children| && nodes[v].children[j] < |nodes|
    requires StageCells(costs, nodes, paths, v, j, k, forced, free)
    requires StageRoom(nodes, paths, v, j, room, limit, forced, free)
    requires capacity[nodes[v].children[j]] == 0
    ensures StageCells(costs, nodes, paths, v, j + 1, k, forced, free)
    ensures StageRoom(nodes, paths, v, j + 1, room, limit, forced, free)
  {
    var c := nodes[v].children[j];
    forall s | Allowed(s, forced, free)
      ensures StageTaken(nodes, paths, s, v, j + 1) == StageTaken(nodes, paths, s, v, j)
      ensures StageCost(nodes, paths, s, v, j + 1, k) == StageCost(nodes, paths, s, v, j, k)
    {
      StageStep(nodes, paths, s, v, j, k);
      AllowedCounts(s, forced, free);
      TakenWithinCapacity(nodes, roots, paths, s, c, forced, free, forcedSubtree, capacity);
      NothingTaken(paths, s, c, k);
    }
    forall t | 0 <= t < |costs| && costs[t] < IMPOSSIBLE_PCI_COST
      ensures StageReached(costs, t, nodes, paths, v, j + 1, k, forced, free)
    {
      assert StageReached(costs, t, nodes, paths, v, j, k, forced, free);
      var s :| Allowed(s, forced, free) && StageTaken(nodes, paths, s, v, j) == t &&
        StageCost(nodes, paths, s, v, j, k) == costs[t];
      assert Allowed(s, forced, free) && StageTaken(nodes, paths, s, v, j + 1) == t &&
        StageCost(nodes, paths, s, v, j + 1, k) == costs[t];
    }
  }

  lemma FinalCells(nodes: seq<PCITreeNode>, roots: seq<nat>, paths: seq<Path>, cells: seq<int>, v: nat, k: int,
                   forced: seq<int>, free: seq<int>)
    requires Forest(nodes, roots, paths) && v < |nodes|
    requires StageCells(cells, nodes, paths, v, |nodes[v].children|, k, forced, free)
    ensures CellsOf(cells, paths, v, k, forced, free)
  {
    var n := |nodes[v].children|;
    forall s { LastStage(nodes, roots, paths, s, v, k); }
    forall t | 0 <= t < |cells| && cells[t] < IMPOSSIBLE_PCI_COST
      ensures Reached(cells, t, paths, v, k, forced, free)
    {
      assert StageReached(cells, t, nodes, paths, v, n, k, forced, free);
      var s :| Allowed(s, forced, free) && StageTaken(nodes, paths, s, v, n) == t &&
        StageCost(nodes, paths, s, v, n, k) == cells[t];
      assert Allowed(s, forced, free) && Taken(paths, s, v) == t && InnerCost(paths, s, v, k) == cells[t];
    }
  }

  // ----- the size at which the sentinel suffices -----

  /** If edges * k^2 / 4 is below the sentinel, so is every cost of a selection. */
  lemma CostBelowSentinel(paths: seq<Path>, s: Selection, v: int, k: int, known: int)
    requires 0 <= k <= known && FitsMachine(|paths|, known)
    ensures InnerCost(paths, s, v, k) < IMPOSSIBLE_PCI_COST
  {
    var bound := known * known / 4;
    Monotone(known, 0, known);
    forall u | 0 <= u < |paths| ensures StrictlyMasked(paths, EdgeCost(paths, s, k), v)(u) <= bound {
      EdgeTermBound(Taken(paths, s, u), k);
      SquareMonotone(k, known);
    }
    SumBounded(|paths|, StrictlyMasked(paths, EdgeCost(paths, s, k), v), bound);
    FitsFactors(|paths|, known);
  }

  ghost predicate CanTake(paths: seq<Path>, v: int, t: int, forced: seq<int>, free: seq<int>) {
    exists s :: Allowed(s, forced, free) && Taken(paths, s, v) == t
  }

  /** At such sizes a cell holds the sentinel exactly when nothing can be taken that way, and
      otherwise the least cost of doing so. */
  lemma SentinelMeansNone(cells: seq<int>, paths: seq<Path>, v: int, k: nat, forced: seq<int>, free: seq<int>, t: nat)
    requires CellsOf(cells, paths, v, k, forced, free) && t < |cells| && FitsMachine(|paths|, k)
    ensures cells[t] == 0x1FFF_FFFF_FFFF_FFFF <==> !CanTake(paths, v, t, forced, free)
    ensures CanTake(paths, v, t, forced, free) ==>
              cells[t] < 0x1FFF_FFFF_FFFF_FFFF && Reached(cells, t, paths, v, k, forced, free)
  {
    if CanTake(paths, v, t, forced, free) {
      var s :| Allowed(s, forced, free) && Taken(paths, s, v) == t;
      CostBelowSentinel(paths, s, v, k, k);
    }
    if cells[t] != IMPOSSIBLE_PCI_COST {
      assert Reached(cells, t, paths, v, k, forced, free);
    }
  }

  /** At such sizes the table holds the least cost wherever something can be taken, and the largest
      machine integer's quarter exactly where nothing can. */
  ghost predicate ExactCells(cells: seq<int>, paths: seq<Path>, v: int, k: int, forced: seq<int>, free: seq<int>) {
    && (forall s | Allowed(s, forced, free) && 0 <= Taken(paths, s, v) < |cells| ::
          cells[Taken(paths, s, v)] <= InnerCost(paths, s, v, k))
    && (forall t | 0 <= t < |cells| ::
          if CanTake(paths, v, t, forced, free) then Reached(cells, t, paths, v, k, forced, free)
          else cells[t] == 0x1FFF_FFFF_FFFF_FFFF)
  }

  lemma CellsAreExact(cells: seq<int>, paths: seq<Path>, v: int, k: nat, forced: seq<int>, free: seq<int>)
    requires CellsOf(cells, paths, v, k, forced, free) && |cells| <= k + 1 && FitsMachine(|paths|, k)
    ensures ExactCells(cells, paths, v, k, forced, free)
  {
    hide FitsMachine, InnerCost, Taken, Allowed;
    forall t | 0 <= t < |cells|
      ensures if CanTake(paths, v, t, forced, free) then Reached(cells, t, paths, v, k, forced, free)
              else cells[t] == 0x1FFF_FFFF_FFFF_FFFF
    {
      SentinelMeansNone(cells, paths, v, k, forced, free, t);
    }
  }

  lemma StageRange(cells: seq<int>, nodes: seq<PCITreeNode>, paths: seq<Path>, v: nat, j: nat, k: int, forced: seq<int>,
                   free: seq<int>)
    requires v < |nodes| && j <= |nodes[v].children| && StageCells(cells, nodes, paths, v, j, k, forced, free)
    ensures forall t | 0 <= t < |cells| :: 0 <= cells[t] <= IMPOSSIBLE_PCI_COST
  {}

  lemma CellsRange(cells: seq<int>, paths: seq<Path>, v: int, k: int, forced: seq<int>, free: seq<int>)
    requires CellsOf(cells, paths, v, k, forced, free)
    ensures forall t | 0 <= t < |cells| :: 0 <= cells[t] <= IMPOSSIBLE_PCI_COST
  {}

  // ----- the algorithm -----

  /** Lowering one entry to the cost of a usable split keeps every entry that of a split. */
  lemma JoinedImproved(was: seq<int>, next: seq<int>, costs: seq<int>, child: seq<int>, b: int, c: int,
                       room: int, least: int, limit: int, k: int)
    requires |was| == limit + 1 && Usable(costs, child, b, c, room, least, limit) && |child| <= k + 1
    requires 0 <= costs[b] && 0 <= child[c]
    requires next == was[b + c := Min(was[b + c], Joined(costs, child, b, c, k))]
    requires forall t | 0 <= t <= limit :: JoinedCell(was, costs, child, t, room, least, limit, k)
    ensures forall t | 0 <= t <= limit :: JoinedCell(next, costs, child, t, room, least, limit, k)
    ensures forall t | 0 <= t <= limit :: next[t] <= was[t]
    ensures next[b + c] <= Joined(costs, child, b, c, k)
  {
    JoinedNonNegative(costs, child, b, c, k);
    hide Joined;
    forall t | 0 <= t <= limit ensures JoinedCell(next, costs, child, t, room, least, limit, k) {
      assert JoinedCell(was, costs, child, t, room, least, limit, k);
    }
  }

  /** The two inner loops: joins a child's table into the running one. */
  method JoinChild(costs: array<int>, child: seq<int>, room: int, least: int, limit: nat, k: int, ghost nodeCount: nat)
    returns (next: array<int>)
    requires costs.Length == limit + 1 && -1 <= room <= limit && 0 <= least && |child| <= k + 1
    requires forall t | 0 <= t < costs.Length :: 0 <= costs[t] <= IMPOSSIBLE_PCI_COST
    requires forall t | 0 <= t < |child| :: 0 <= child[t] <= IMPOSSIBLE_PCI_COST
    ensures fresh(next) && next.Length == limit + 1
    ensures FitsMachine(nodeCount, k) ==> JoinedSumsFit(costs[..], child, room, least, limit, k)
    ensures JoinedTable(next[..], costs[..], child, room, least, limit, k)
  {
    hide FitsMachine, JoinedSumsFit;
    next := new int[limit + 1](_ => IMPOSSIBLE_PCI_COST);
    ghost var cs := costs[..];
    if FitsMachine(nodeCount, k) { JoinedSumsInRange(cs, child, room, least, limit, k, nodeCount); }
    for before := 0 to room + 1
      invariant costs[..] == cs
      invariant forall t | 0 <= t <= limit :: JoinedCell(next[..], cs, child, t, room, least, limit, k)
      invariant forall b, c | Usable(cs, child, b, c, room, least, limit) && b < before ::
                next[b + c] <= Joined(cs, child, b, c, k)
    {
      if costs[before] != IMPOSSIBLE_PCI_COST {
        var count := least;
        while count < |child| && before + count <= limit
          invariant least <= count
          invariant costs[..] == cs
          invariant forall t | 0 <= t <= limit :: JoinedCell(next[..], cs, child, t, room, least, limit, k)
          invariant forall b, c | Usable(cs, child, b, c, room, least, limit) && b < before ::
                    next[b + c] <= Joined(cs, child, b, c, k)
          invariant forall c | Usable(cs, child, before, c, room, least, limit) && c < count ::
                    next[before + c] <= Joined(cs, child, before, c, k)
        {
          if child[count] != IMPOSSIBLE_PCI_COST {
            var cost := costs[before] + child[count] + count * (k - count);
            assert Usable(cs, child, before, count, room, least, limit);
            assert cost == Joined(cs, child, before, count, k);
            if FitsMachine(nodeCount, k) {
              JoinedSumInRange(cs, child, room, least, limit, k, before, count);
              assert 0 <= cost <= MAX_INT;
            }
            ghost var was := next[..];
            next[before + count] := Min(next[before + count], cost);
            JoinedImproved(was, next[..], cs, child, before, count, room, least, limit, k);
          }
          count := count + 1;
        }
      }
    }
  }

  /** pciSubtreeCosts. */
  method PCISubtreeCosts(nodes: seq<PCITreeNode>, node: nat, rootCount: int, forced: seq<int>, free: seq<int>,
                         forcedSubtree: seq<int>, capacity: seq<int>, ghost roots: seq<nat>, ghost paths: seq<Path>)
    returns (result: seq<int>)
    requires Tables(nodes, roots, paths, forced, free, forcedSubtree, capacity)
    requires node < |nodes| && 0 <= rootCount
    ensures |result| == Min(capacity[node], rootCount) + 1
    ensures CellsOf(result, paths, node, rootCount, forced, free)
    ensures FitsMachine(|nodes|, rootCount) ==> ExactCells(result, paths, node, rootCount, forced, free)
    decreases |nodes| - node
  {
    hide Tables, Forest, StageCells, StageRoom, CellsOf, ExactCells, Taken, JoinedTable, JoinedSumsFit, FitsMachine;
    TableSizes(nodes, roots, paths, forced, free, forcedSubtree, capacity);
    TakenWithinCapacity(nodes, roots, paths, forced, node, forced, free, forcedSubtree, capacity);
    OwnWithinCapacity(nodes, roots, paths, node, forced, free, forcedSubtree, capacity);
    var limit := Min(capacity[node], rootCount);
    var costs := new int[limit + 1];
    for count := 0 to limit + 1
      invariant forall t | 0 <= t < count ::
                costs[t] == if forced[node] <= t <= forced[node] + free[node] then 0 else IMPOSSIBLE_PCI_COST
    {
      costs[count] := IMPOSSIBLE_PCI_COST;
      if count >= forced[node] && count <= forced[node] + free[node] {
        costs[count] := 0;
      }
    }
    var usedCapacity := Min(forced[node] + free[node], rootCount);
    FirstStage(nodes, paths, costs[..], node, rootCount, usedCapacity, forced, free);
    var children := nodes[node].children;
    for j := 0 to |children|
      invariant costs.Length == limit + 1 && 0 <= usedCapacity <= limit
      invariant StageCells(costs[..], nodes, paths, node, j, rootCount, forced, free)
      invariant StageRoom(nodes, paths, node, j, usedCapacity, limit, forced, free)
    {
      var child := children[j];
      ChildFacts(nodes, roots, paths, node, j);
      TakenWithinCapacity(nodes, roots, paths, forced, child, forced, free, forcedSubtree, capacity);
      if capacity[child] == 0 {
        EmptyChild(nodes, roots, paths, node, j, rootCount, forced, free, forcedSubtree, capacity, costs[..],
                   usedCapacity, limit);
      } else {
        var childCosts := PCISubtreeCosts(nodes, child, rootCount, forced, free, forcedSubtree, capacity, roots, paths);
        StageRange(costs[..], nodes, paths, node, j, rootCount, forced, free);
        CellsRange(childCosts, paths, child, rootCount, forced, free);
        assert forall t | 0 <= t < costs.Length :: costs[t] == costs[..][t];
        var next := JoinChild(costs, childCosts, usedCapacity, forcedSubtree[child], limit, rootCount, |nodes|);
        NextStage(nodes, roots, paths, node, j, rootCount, forced, free, forcedSubtree, capacity,
                  costs[..], childCosts, next[..], usedCapacity, limit);
        usedCapacity := Min(limit, usedCapacity + capacity[child]);
        costs := next;
      }
    }
    FinalCells(nodes, roots, paths, costs[..], node, rootCount, forced, free);
    result := costs[..];
    if FitsMachine(|nodes|, rootCount) { CellsAreExact(result, paths, node, rootCount, forced, free); }
  }

  lemma OwnWithinCapacity(nodes: seq<PCITreeNode>, roots: seq<nat>, paths: seq<Path>, v: nat,
                          forced: seq<int>, free: seq<int>, forcedSubtree: seq<int>, capacity: seq<int>)
    requires Tables(nodes, roots, paths, forced, free, forcedSubtree, capacity) && v < |nodes|
    ensures forced[v] + free[v] <= capacity[v]
  {
    var all := AddSeqs(forced, free);
    SubtreeSumSplitsOff(paths, Amount(all), v);
    SumNonNegative(|paths|, StrictlyMasked(paths, Amount(all), v));
  }
}
