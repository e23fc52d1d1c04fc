/**
 Machine integers: the sentinel of the knapsack (pci_allocation_bounds.go:89) and the size of
 allocations for which no real cost reaches it and no sum leaves the range of a 64-bit integer.
 */
module Machine {
  import opened Sums
  import opened Pairs

  const MAX_INT := 0x7FFF_FFFF_FFFF_FFFF
  const IMPOSSIBLE_PCI_COST := MAX_INT / 4

  predicate Int64(x: int) {
    -MAX_INT - 1 <= x <= MAX_INT
  }

  /** Nodes, at least one, times k*k/4 stay below a quarter of the largest 64-bit integer. */
  predicate FitsMachine(nodeCount: nat, k: int) {
    Max(1, nodeCount) * (k * k / 4) < 0x1FFF_FFFF_FFFF_FFFF
  }

  /** A million nodes and a million devices fit. */
  lemma MillionsFit(nodeCount: nat, k: int)
    requires nodeCount <= 1_000_000 && 0 <= k <= 1_000_000
    ensures FitsMachine(nodeCount, k)
  {
    SquareMonotone(k, 1_000_000);
    Monotone(Max(1, nodeCount), k * k / 4, 250_000_000_000);
    Monotone(250_000_000_000, Max(1, nodeCount), 1_000_000);
  }

  lemma SquareNonNegative(a: int)
    ensures 0 <= a * a
  {}

  lemma ProductNonNegative(a: int, b: int)
    requires 0 <= a && 0 <= b
    ensures 0 <= a * b
  {}

  lemma Monotone(n: int, a: int, b: int)
    requires 0 <= n && a <= b
    ensures n * a <= n * b
  {}

  lemma SquareMonotone(a: int, b: int)
    requires 0 <= a <= b
    ensures a * a / 4 <= b * b / 4
  {
    Monotone(a, a, b);
    Monotone(b, a, b);
  }

  lemma SquareGrows(a: int, b: int)
    ensures (a + b) * (a + b) == a * a + 2 * (a * b) + b * b && 0 <= b * b
  {
    Distribute(a + b, a, b);
    Distribute(a, a, b);
    Distribute(b, a, b);
    SquareNonNegative(b);
  }

  /** Adding the pairs between b and c endpoints to the pairs among b of them. */
  lemma PairsWithinSquare(pairs: int, b: int, c: int, known: int)
    requires 0 <= b && 0 <= c && b + c <= known && 0 <= 2 * pairs <= b * b
    ensures 0 <= b * c <= pairs + b * c && 2 * (pairs + b * c) <= known * known
  {
    SquareGrows(b, c);
    ProductNonNegative(b, c);
    Monotone(b + c, b + c, known);
    Monotone(known, b + c, known);
  }

  /** The contribution of one edge is largest when it halves the endpoints. */
  lemma EdgeTermBound(c: int, k: int)
    ensures c * (k - c) <= k * k / 4
  {
    var d := k - 2 * c;
    SquareNonNegative(d);
    assert d * d == k * k - 4 * (c * (k - c)) by {
      Distribute(d, k, -2 * c);
      Distribute(c, k, -c);
      assert k * d == k * k - 2 * (c * k);
      assert c * d == c * k - 2 * (c * c);
      assert d * d == k * d - 2 * (c * d);
    }
  }

  /** Both factors of the size condition are covered by it. */
  lemma FitsFactors(nodeCount: nat, k: int)
    requires FitsMachine(nodeCount, k)
    ensures 0 <= k * k / 4 < IMPOSSIBLE_PCI_COST && k * k <= MAX_INT
    ensures 0 <= nodeCount * (k * k / 4) < IMPOSSIBLE_PCI_COST
  {
    SquareNonNegative(k);
    Monotone(k * k / 4, 1, Max(1, nodeCount));
    Monotone(k * k / 4, nodeCount, Max(1, nodeCount));
    ProductNonNegative(nodeCount, k * k / 4);
  }

  lemma FitsSmaller(nodeCount: nat, k: int, bound: int)
    requires 0 <= k <= bound && FitsMachine(nodeCount, bound)
    ensures FitsMachine(nodeCount, k)
  {
    SquareMonotone(k, bound);
    Monotone(Max(1, nodeCount), k * k / 4, bound * bound / 4);
  }

  /** The sum of two possible costs and an edge contribution. */
  lemma IntermediateSumFits(a: int, b: int, c: int, k: int, nodeCount: nat)
    requires 0 <= a < IMPOSSIBLE_PCI_COST && 0 <= b < IMPOSSIBLE_PCI_COST
    requires FitsMachine(nodeCount, k)
    ensures a + b + c * (k - c) <= MAX_INT
  {
    EdgeTermBound(c, k);
    FitsFactors(nodeCount, k);
  }
}
