/**
 * The waits-for graph: an edge (a, b) means "a waits for b". Its source is not part of this
 * model; it is reduced to a set of edges and a cycle test defined by reachability.
 */
module WaitsFor {

  /** `b` can be reached from `a` by following between 1 and `n` edges. */
  predicate ReachesWithin<T(==)>(edges: set<(T, T)>, a: T, b: T, n: nat)
    decreases n
  {
    n > 0 && ((a, b) in edges || exists e | e in edges && e.0 == a :: ReachesWithin(edges, e.1, b, n - 1))
  }

  /**
   * Some edge (a, b) is closed into a cycle by a walk from b back to a. A cycle that repeats no
   * edge has at most |edges| edges, so the bound loses no cycle.
   */
  predicate HasCycle<T(==)>(edges: set<(T, T)>)
  {
    exists e | e in edges :: ReachesWithin(edges, e.1, e.0, |edges|)
  }

  /** The edges whose source is `a`. */
  function Outgoing<T(==)>(edges: set<(T, T)>, a: T): (out: set<(T, T)>)
    ensures out <= edges
    ensures forall e | e in edges :: e in out <==> e.0 == a
  {
    set e | e in edges && e.0 == a
  }

  lemma {:induction false} ReachesWithinMonotone<T>(small: set<(T, T)>, big: set<(T, T)>, a: T, b: T, n: nat, m: nat)
    requires small <= big && n <= m
    requires ReachesWithin(small, a, b, n)
    ensures ReachesWithin(big, a, b, m)
    decreases n
  {
    if (a, b) !in small {
      var e :| e in small && e.0 == a && ReachesWithin(small, e.1, b, n - 1);
      ReachesWithinMonotone(small, big, e.1, b, n - 1, m - 1);
      assert e in big && e.0 == a && ReachesWithin(big, e.1, b, m - 1);
    }
  }

  /** Removing edges never creates a cycle. */
  lemma AcyclicSubset<T>(small: set<(T, T)>, big: set<(T, T)>)
    requires small <= big
    requires !HasCycle(big)
    ensures !HasCycle(small)
  {
    if HasCycle(small) {
      var e :| e in small && ReachesWithin(small, e.1, e.0, |small|);
      assert e in big;
      assert |small| <= |big| by { SubsetCardinality(small, big); }
      ReachesWithinMonotone(small, big, e.1, e.0, |small|, |big|);
    }
  }

  lemma SubsetCardinality<T>(small: set<T>, big: set<T>)
    requires small <= big
    ensures |small| <= |big|
  {
    assert big == small + (big - small);
  }

  /** Two transactions waiting for each other form a cycle. */
  lemma MutualWaitIsCycle<T>(edges: set<(T, T)>, a: T, b: T)
    requires (a, b) in edges && (b, a) in edges
    ensures HasCycle(edges)
  {
    assert ReachesWithin(edges, b, a, |edges|);
  }

  class WaitsForGraph<T(==)> {
    var edges: set<(T, T)>

    constructor ()
      ensures edges == {}
    {
      edges := {};
    }

    method AddEdge(from: T, to: T)
      modifies this
      ensures edges == old(edges) + {(from, to)}
    {
      edges := edges + {(from, to)};
    }

    method RemoveEdge(from: T, to: T)
      modifies this
      ensures edges == old(edges) - {(from, to)}
    {
      edges := edges - {(from, to)};
    }

    method DetectCycle() returns (cyclic: bool)
      ensures cyclic == HasCycle(edges)
    {
      cyclic := HasCycle(edges);
    }
  }
}
