/**
 The reference for the pruned search: visit every combination of candidates in ID order and keep
 the first one of least score (topology_allocator.go:194-223 without the bound).  Its result is
 the best of all combinations, the lexicographically first among equals.
 */
module Exhaustive {
  import opened Ordering
  import opened Placement
  import opened Score
  import opened Allocator
  import opened Bounds

  type Choice = Option<seq<int>>

  ghost function ScoreAt(a: TopologyAllocator, xs: seq<int>): AllocationScore {
    ScoreOf(xs, a.Attr())
  }

  /** Keeping the better of the best so far and a new leaf; the earlier one on a tie. */
  ghost function Keep(a: TopologyAllocator, best: Choice, leaf: seq<int>): Choice {
    if best.None? || Better(ScoreAt(a, leaf), ScoreAt(a, best.value)) then Some(leaf) else best
  }

  /** Visits, in order, all ways to add remaining of the candidates from position start on. */
  ghost function Explore(a: TopologyAllocator, candidates: seq<int>, chosen: seq<int>, start: nat, remaining: nat,
                         best: Choice): Choice
    requires start <= |candidates|
    decreases |candidates| - start
  {
    if remaining == 0 then Keep(a, best, chosen)
    else if |candidates| - start < remaining then best
    else Explore(a, candidates, chosen, start + 1, remaining,
                 Explore(a, candidates, chosen + [candidates[start]], start + 1, remaining - 1, best))
  }

  /** The completions from position start: remaining candidates at or after it, in order. */
  ghost predicate From(candidates: seq<int>, start: nat, remaining: nat, es: seq<int>)
    requires start <= |candidates|
  {
    Completion(candidates[start..], remaining, es)
  }

  lemma FromSkip(candidates: seq<int>, start: nat, remaining: nat, es: seq<int>)
    requires start < |candidates| && From(candidates, start + 1, remaining, es)
    ensures From(candidates, start, remaining, es)
  {}

  lemma FromTake(candidates: seq<int>, start: nat, remaining: nat, es: seq<int>)
    requires Ascending(candidates) && start < |candidates| && From(candidates, start + 1, remaining, es)
    ensures From(candidates, start, remaining + 1, [candidates[start]] + es)
  {}

  /** A completion from start either begins with the candidate there or comes from later on. */
  lemma FromSplit(candidates: seq<int>, start: nat, remaining: nat, es: seq<int>)
    requires Ascending(candidates) && start < |candidates| && remaining > 0 && From(candidates, start, remaining, es)
    ensures if es[0] == candidates[start]
            then From(candidates, start + 1, remaining - 1, es[1..]) && es == [candidates[start]] + es[1..]
            else From(candidates, start + 1, remaining, es) && candidates[start] < es[0]
  {}

  /** Too few candidates left: no completion. */
  lemma FromTooFew(candidates: seq<int>, start: nat, remaining: nat, es: seq<int>)
    requires Ascending(candidates) && start <= |candidates| && From(candidates, start, remaining, es)
    ensures remaining <= |candidates| - start
  {
    AllCounted(es);
    AllCounted(candidates[start..]);
    CountSubList(es, candidates[start..], Anything());
  }

  /** With enough candidates there is a completion. */
  lemma FromExists(candidates: seq<int>, start: nat, remaining: nat) returns (es: seq<int>)
    requires Ascending(candidates) && start + remaining <= |candidates|
    ensures From(candidates, start, remaining, es)
  {
    es := candidates[start..][..remaining];
    forall i | 0 <= i < |es| ensures es[i] in candidates[start..] { assert candidates[start..][i] == es[i]; }
  }

  // ----- pruning -----

  /** If no completion beats the best so far, exploring changes nothing. */
  lemma {:induction false} PruneSound(a: TopologyAllocator, candidates: seq<int>, chosen: seq<int>, start: nat,
                                      remaining: nat, best: Choice)
    requires Ascending(candidates) && start <= |candidates| && best.Some?
    requires forall es | From(candidates, start, remaining, es) ::
             !Better(ScoreAt(a, chosen + es), ScoreAt(a, best.value))
    ensures Explore(a, candidates, chosen, start, remaining, best) == best
    decreases |candidates| - start
  {
    hide ScoreAt;
    if remaining == 0 {
      assert From(candidates, start, 0, []);
      assert chosen + [] == chosen;
    } else if |candidates| - start >= remaining {
      var c := candidates[start];
      forall es | From(candidates, start + 1, remaining - 1, es)
        ensures !Better(ScoreAt(a, chosen + [c] + es), ScoreAt(a, best.value))
      {
        FromTake(candidates, start, remaining - 1, es);
        assert chosen + [c] + es == chosen + ([c] + es);
      }
      PruneSound(a, candidates, chosen + [c], start + 1, remaining - 1, best);
      forall es | From(candidates, start + 1, remaining, es)
        ensures !Better(ScoreAt(a, chosen + es), ScoreAt(a, best.value)) {
        FromSkip(candidates, start, remaining, es);
      }
      PruneSound(a, candidates, chosen, start + 1, remaining, best);
    }
  }

  // ----- what the enumeration finds -----

  /** Compares the lists of added devices in enumeration order. */
  ghost predicate Before(xs: seq<int>, ys: seq<int>) {
    Compare(xs, ys) < 0
  }

  /** result is the best of the old best and all completions, and among the completions the first
      of its score; the old best wins ties. */
  ghost predicate BestOf(a: TopologyAllocator, candidates: seq<int>, chosen: seq<int>, start: nat, remaining: nat,
                         best: Choice, result: Choice)
    requires start <= |candidates|
  {
    && (best.Some? ==> result.Some? && AtLeastAsGood(ScoreAt(a, result.value), ScoreAt(a, best.value)))
    && (forall es | From(candidates, start, remaining, es) ::
          result.Some? && AtLeastAsGood(ScoreAt(a, result.value), ScoreAt(a, chosen + es)))
    && (result == best || FirstCompletion(a, candidates, chosen, start, remaining, best, result))
  }

  ghost predicate FirstCompletion(a: TopologyAllocator, candidates: seq<int>, chosen: seq<int>, start: nat,
                                  remaining: nat, best: Choice, result: Choice)
    requires start <= |candidates|
  {
    && result.Some?
    && (best.Some? ==> Better(ScoreAt(a, result.value), ScoreAt(a, best.value)))
    && exists ws ::
      From(candidates, start, remaining, ws) && result.value == chosen + ws &&
      FirstAmong(a, candidates, chosen, start, remaining, ws)
  }

  /** No completion that comes earlier has as good a score. */
  ghost predicate FirstAmong(a: TopologyAllocator, candidates: seq<int>, chosen: seq<int>, start: nat, remaining: nat,
                             ws: seq<int>)
    requires start <= |candidates|
  {
    forall es | From(candidates, start, remaining, es) && Before(es, ws) ::
      Better(ScoreAt(a, chosen + ws), ScoreAt(a, chosen + es))
  }

  lemma ExploreStepScores(a: TopologyAllocator, candidates: seq<int>, chosen: seq<int>, start: nat, remaining: nat,
                          best: Choice, mid: Choice, result: Choice)
    requires Ascending(candidates) && start < |candidates| && remaining > 0
    requires BestOf(a, candidates, chosen + [candidates[start]], start + 1, remaining - 1, best, mid)
    requires BestOf(a, candidates, chosen, start + 1, remaining, mid, result)
    ensures best.Some? ==> result.Some? && AtLeastAsGood(ScoreAt(a, result.value), ScoreAt(a, best.value))
    ensures forall es | From(candidates, start, remaining, es) ::
              result.Some? && AtLeastAsGood(ScoreAt(a, result.value), ScoreAt(a, chosen + es))
  {
    hide ScoreAt;
    var c := candidates[start];
    forall es | From(candidates, start, remaining, es)
      ensures result.Some? && AtLeastAsGood(ScoreAt(a, result.value), ScoreAt(a, chosen + es))
    {
      FromSplit(candidates, start, remaining, es);
      if es[0] == c { assert chosen + [c] + es[1..] == chosen + es; }
    }
  }

  /** The earlier branch keeps its first completion if the later branch does not beat it. */
  lemma FirstStays(a: TopologyAllocator, candidates: seq<int>, chosen: seq<int>, start: nat, remaining: nat,
                   ws: seq<int>)
    requires Ascending(candidates) && start < |candidates| && remaining > 0
    requires From(candidates, start + 1, remaining - 1, ws)
    requires FirstAmong(a, candidates, chosen + [candidates[start]], start + 1, remaining - 1, ws)
    ensures From(candidates, start, remaining, [candidates[start]] + ws)
    ensures FirstAmong(a, candidates, chosen, start, remaining, [candidates[start]] + ws)
  {
    hide ScoreAt, Compare, SubList;
    var c := candidates[start];
    FromTake(candidates, start, remaining - 1, ws);
    forall es | From(candidates, start, remaining, es) && Before(es, [c] + ws)
      ensures Better(ScoreAt(a, chosen + ([c] + ws)), ScoreAt(a, chosen + es))
    {
      FromSplit(candidates, start, remaining, es);
      CompareStep(es[1..], ws, es[0], c);
      assert es == [es[0]] + es[1..];
      assert chosen + [c] + es[1..] == chosen + ([c] + es[1..]);
      assert chosen + [c] + ws == chosen + ([c] + ws);
    }
  }

  /** A completion from the later branch beats everything in the earlier one, so it stays first. */
  lemma FirstFromLater(a: TopologyAllocator, candidates: seq<int>, chosen: seq<int>, start: nat, remaining: nat,
                       best: Choice, mid: Choice, ws: seq<int>)
    requires Ascending(candidates) && start < |candidates| && remaining > 0
    requires BestOf(a, candidates, chosen + [candidates[start]], start + 1, remaining - 1, best, mid)
    requires From(candidates, start + 1, remaining, ws)
    requires mid.Some? ==> Better(ScoreAt(a, chosen + ws), ScoreAt(a, mid.value))
    requires FirstAmong(a, candidates, chosen, start + 1, remaining, ws)
    ensures From(candidates, start, remaining, ws)
    ensures FirstAmong(a, candidates, chosen, start, remaining, ws)
  {
    hide ScoreAt, FirstCompletion, Before;
    var c := candidates[start];
    FromSkip(candidates, start, remaining, ws);
    forall es | From(candidates, start, remaining, es) && Before(es, ws)
      ensures Better(ScoreAt(a, chosen + ws), ScoreAt(a, chosen + es))
    {
      FromSplit(candidates, start, remaining, es);
      if es[0] == c { assert chosen + [c] + es[1..] == chosen + es; }
    }
  }

  lemma EarlierWins(a: TopologyAllocator, candidates: seq<int>, chosen: seq<int>, start: nat, remaining: nat,
                    best: Choice, mid: Choice)
    requires Ascending(candidates) && start < |candidates| && remaining > 0
    requires FirstCompletion(a, candidates, chosen + [candidates[start]], start + 1, remaining - 1, best, mid)
    ensures FirstCompletion(a, candidates, chosen, start, remaining, best, mid)
  {
    hide ScoreAt, FirstAmong, Completion, SubList;
    var c := candidates[start];
    var ws :| From(candidates, start + 1, remaining - 1, ws) && mid.value == chosen + [c] + ws
      && FirstAmong(a, candidates, chosen + [c], start + 1, remaining - 1, ws);
    FirstStays(a, candidates, chosen, start, remaining, ws);
    assert chosen + [c] + ws == chosen + ([c] + ws);
  }

  lemma LaterWins(a: TopologyAllocator, candidates: seq<int>, chosen: seq<int>, start: nat, remaining: nat,
                  best: Choice, mid: Choice, result: Choice)
    requires Ascending(candidates) && start < |candidates| && remaining > 0
    requires BestOf(a, candidates, chosen + [candidates[start]], start + 1, remaining - 1, best, mid)
    requires FirstCompletion(a, candidates, chosen, start + 1, remaining, mid, result)
    ensures FirstCompletion(a, candidates, chosen, start, remaining, best, result)
  {
    hide ScoreAt;
    var ws :| From(candidates, start + 1, remaining, ws) && result.value == chosen + ws
      && FirstAmong(a, candidates, chosen, start + 1, remaining, ws);
    FirstFromLater(a, candidates, chosen, start, remaining, best, mid, ws);
    if best.Some? { OrderIsTransitive(ScoreAt(a, mid.value), ScoreAt(a, best.value), ScoreAt(a, best.value)); }
  }

  lemma ExploreStep(a: TopologyAllocator, candidates: seq<int>, chosen: seq<int>, start: nat, remaining: nat,
                    best: Choice, mid: Choice, result: Choice)
    requires Ascending(candidates) && start < |candidates| && remaining > 0
    requires BestOf(a, candidates, chosen + [candidates[start]], start + 1, remaining - 1, best, mid)
    requires BestOf(a, candidates, chosen, start + 1, remaining, mid, result)
    ensures BestOf(a, candidates, chosen, start, remaining, best, result)
  {
    hide ScoreAt, FirstCompletion;
    ExploreStepScores(a, candidates, chosen, start, remaining, best, mid, result);
    if result != best {
      if result == mid {
        EarlierWins(a, candidates, chosen, start, remaining, best, mid);
      } else {
        LaterWins(a, candidates, chosen, start, remaining, best, mid, result);
      }
    }
  }

  lemma OnlyLeaf(a: TopologyAllocator, candidates: seq<int>, chosen: seq<int>, start: nat, best: Choice)
    requires start <= |candidates|
    ensures BestOf(a, candidates, chosen, start, 0, best, Keep(a, best, chosen))
  {
    hide ScoreAt;
    assert From(candidates, start, 0, []);
    assert chosen + [] == chosen;
    forall es | From(candidates, start, 0, es) ensures chosen + es == chosen {}
    assert FirstAmong(a, candidates, chosen, start, 0, []);
  }

  /** The enumeration finds the best completion, the first in order among equals. */
  lemma {:induction false} ExploreFindsBest(a: TopologyAllocator, candidates: seq<int>, chosen: seq<int>, start: nat,
                                            remaining: nat, best: Choice)
    requires Ascending(candidates) && start <= |candidates|
    ensures BestOf(a, candidates, chosen, start, remaining, best,
                   Explore(a, candidates, chosen, start, remaining, best))
    decreases |candidates| - start
  {
    hide ScoreAt;
    if remaining == 0 {
      OnlyLeaf(a, candidates, chosen, start, best);
    } else if |candidates| - start < remaining {
      forall es | From(candidates, start, remaining, es) ensures false { FromTooFew(candidates, start, remaining, es); }
    } else {
      var mid := Explore(a, candidates, chosen + [candidates[start]], start + 1, remaining - 1, best);
      ExploreFindsBest(a, candidates, chosen + [candidates[start]], start + 1, remaining - 1, best);
      ExploreFindsBest(a, candidates, chosen, start + 1, remaining, mid);
      ExploreStep(a, candidates, chosen, start, remaining, best, mid,
                  Explore(a, candidates, chosen, start, remaining, best));
    }
  }
}
