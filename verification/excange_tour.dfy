/**
 * `excange_tour` (project2/excange_tour/excange_tour.py): HybridHAM finds a Hamiltonian cycle,
 * then `_2_3opt` improves it in place until a full round of rotations improves nothing.
 *
 * The list `hc` that `hybridHAM` fills is the open cycle: every vertex once, the last adjacent
 * to the first. The improvement works on it as an array.
 */
module ExcangeTour {
  import opened Wrappers
  import opened Exceptions
  import opened Graphs
  import opened TourMoves
  import opened TourSearch
  import opened HybridHamiltonian

  /**
   * What `excange_tour` answers: `None` (no Hamiltonian cycle), the improved cycle, or, in this
   * model only, that HybridHAM ran out of random draws before it decided.
   */
  datatype Answer = NoCycle | Cycle(hc: seq<int>) | Undecided

  /** A list of every vertex once is a tour exactly when closing it gives a Hamiltonian cycle. */
  lemma ClosedHamiltonian(g: Graph, o: seq<int>)
    requires |o| == |g.vertices| >= 2 && Distinct(o) && OnVertices(g, o)
    ensures Tour(g, o) <==> HamiltonianCycle(g, o + [o[0]])
  {
    ClosedTour(g, o);
    var c := o + [o[0]];
    assert c[..|c| - 1] == o;
    assert OnVertices(g, c) by {
      forall t | 0 <= t < |c|
        ensures c[t] in g.vertices
      {
        if t < |o| {
          assert c[t] == o[t];
        }
      }
    }
  }

  /**
   * `excange_tour(C)` on the graph `g` of its currencies. With fewer than two vertices HybridHAM
   * raises IndexError. When HybridHAM answers `False` the result is `None`, and then the graph
   * has no Hamiltonian cycle. Otherwise the cycle `start` it found is improved by `_2_3opt`
   * with `num_cycle = len(hc) + 1`, whose rotation `round(len(hc) / num_cycle)` is 1; the
   * result is a Hamiltonian cycle through the same vertices, no dearer than `start`.
   */
  method ExcangeTourSearch(g: Graph, draws: seq<Draw>) returns (r: Result<Answer, Error>, ghost start: seq<int>)
    requires Valid(g)
    ensures r.Failure? <==> |g.vertices| < 2
    ensures r.Failure? ==> r.error == IndexError
    ensures r == Success(NoCycle) ==> forall c :: !HamiltonianCycle(g, c)
    ensures r.Success? && r.value.Cycle? ==>
      |start| >= 2 && HamiltonianCycle(g, start + [start[0]]) &&
      |r.value.hc| >= 2 && HamiltonianCycle(g, r.value.hc + [r.value.hc[0]]) &&
      multiset(r.value.hc) == multiset(start) && Tour(g, start) && Tour(g, r.value.hc) &&
      CycleCost(g, r.value.hc) <= CycleCost(g, start)
  {
    var h := HybridHam(g, draws);
    if h.Failure? {
      return Failure(h.error), [];
    }
    var path := h.value.path;
    start := path;
    if h.value.outcome == Returned(false) {
      return Success(NoCycle), start;
    } else if h.value.outcome != Returned(true) {
      return Success(Undecided), start;
    }
    ClosedHamiltonian(g, path);
    var hc := new int[|path|](i requires 0 <= i < |path| => path[i]);
    assert hc[..] == path;
    var edited := true;
    while edited
      invariant Tour(g, hc[..]) && multiset(hc[..]) == multiset(start)
      invariant CycleCost(g, hc[..]) <= CycleCost(g, start)
      decreases edited
    {
      edited := TwoThreeOptRounds(g, hc, hc.Length + 1, 1);
    }
    Reordered(g, start, hc[..]);
    ClosedHamiltonian(g, hc[..]);
    return Success(Cycle(hc[..])), start;
  }
}
