/**
 * The earlier draft of the exchange tour (project2/excange_tour.py): a search that stops at the
 * first Hamiltonian cycle it finds (`_random_hamiltonian`), a 2-opt pass that only tries to swap
 * two neighbouring vertices of the cycle and keeps the cost up to date (`_2opt`), the rotation
 * of the cycle by one vertex (`_rotate`) and the driver that alternates them (`excange_tour`).
 *
 * The cycle is listed closed, its first vertex repeated at the end. The random start vertex is
 * the parameter `pick`; weights are integers, so the rounding to ten decimals is not modelled.
 */
module DraftTour {
  import opened Wrappers
  import opened Exceptions
  import opened Sequences
  import opened Graphs
  import opened TourMoves
  import opened TourSearch

  /** What `_random_hamiltonian` returns: whether a cycle was found, the list and the cost. */
  datatype Attempt = Attempt(found: bool, hc: seq<int>, cost: int)

  // ---------------------------------------------------------------------------
  // `_random_hamiltonian`: the first cycle found
  // ---------------------------------------------------------------------------

  /**
   * `_random_hamiltonian(g, curr, hc, cost)` with `curr` the last vertex of `hc`. Once every
   * vertex is on the path, the closed list, found exactly when its ends are adjacent (and then
   * its cost includes the closing edge); otherwise the first success among the neighbours.
   */
  ghost function Search(g: Graph, hc: seq<int>, cost: int): Attempt
    requires Valid(g) && SearchPath(g, hc)
    decreases |g.vertices| - |hc| + 1, 0, 0
  {
    if |g.vertices| == |hc| then
      var e := GetEdge(g, hc[0], hc[|hc| - 1]);
      Attempt(e.Some?, hc + [hc[0]], if e.Some? then cost + e.value else cost)
    else
      TryFrom(g, hc, cost, 0)
  }

  /** The neighbours of the last vertex of `hc` from position `t` on, tried in order: the first success, or the failure `(False, hc, cost)`. */
  ghost function TryFrom(g: Graph, hc: seq<int>, cost: int, t: nat): Attempt
    requires Valid(g) && SearchPath(g, hc)
    decreases |g.vertices| - |hc|, 1, |Neighbours(g, hc[|hc| - 1])| - t
  {
    var es := Neighbours(g, hc[|hc| - 1]);
    if t >= |es| then Attempt(false, hc, cost)
    else if es[t] in hc then TryFrom(g, hc, cost, t + 1)
    else
      Extended(g, hc, t);
      var res := Search(g, hc + [es[t]], cost + g.weight[(hc[|hc| - 1], es[t])]);
      if res.found then res else TryFrom(g, hc, cost, t + 1)
  }

  /**
   * `_random_hamiltonian(g, curr, hc, cost)` on a path already started: the neighbours are tried
   * in turn, each appended before the deeper search and popped again after it fails; the first
   * success is returned.
   */
  method RandomHamiltonian(g: Graph, hc: seq<int>, cost: int) returns (res: Attempt)
    requires Valid(g) && SearchPath(g, hc)
    ensures res == Search(g, hc, cost)
    decreases |g.vertices| - |hc|
  {
    if |g.vertices| == |hc| {
      var e := GetEdge(g, hc[0], hc[|hc| - 1]);
      return Attempt(e.Some?, hc + [hc[0]], if e.Some? then cost + e.value else cost);
    }
    var curr := hc[|hc| - 1];
    var es := Neighbours(g, curr);
    for t := 0 to |es|
      invariant TryFrom(g, hc, cost, t) == Search(g, hc, cost)
    {
      var o := es[t];
      if o !in hc {
        Extended(g, hc, t);
        res := RandomHamiltonian(g, hc + [o], cost + g.weight[(curr, o)]);
        if res.found {
          return res;
        }
      }
    }
    return Attempt(false, hc, cost);
  }

  /** `_random_hamiltonian(g)`: the path starts at the vertex drawn at position `pick`; no vertex to draw raises IndexError. */
  method RandomHamiltonianFrom(g: Graph, pick: nat) returns (r: Result<Attempt, Error>)
    requires Valid(g)
    ensures r.Failure? <==> |g.vertices| == 0
    ensures r.Failure? ==> r.error == IndexError
    ensures r.Success? ==> r.value == Search(g, [g.vertices[pick % |g.vertices|]], 0)
  {
    if |g.vertices| == 0 {
      return Failure(IndexError);
    }
    var curr := g.vertices[pick % |g.vertices|];
    var res := RandomHamiltonian(g, [curr], 0);
    return Success(res);
  }

  /** Stopping at the first success finds a cycle exactly when the full search yields one, and finds the first it yields. */
  lemma {:induction false} SearchFirst(g: Graph, hc: seq<int>, cost: int)
    requires Valid(g) && SearchPath(g, hc)
    ensures var a := Search(g, hc, cost);
      (a.found <==> Extend(g, hc, cost) != []) &&
      (a.found ==> (a.hc, a.cost) == Extend(g, hc, cost)[0])
    decreases |g.vertices| - |hc| + 1, 0, 0
  {
    if |g.vertices| != |hc| {
      TryFromFirst(g, hc, cost, 0);
    }
  }

  lemma {:induction false} TryFromFirst(g: Graph, hc: seq<int>, cost: int, t: nat)
    requires Valid(g) && SearchPath(g, hc)
    ensures var a := TryFrom(g, hc, cost, t);
      (a.found <==> Branches(g, hc, cost, t) != []) &&
      (a.found ==> (a.hc, a.cost) == Branches(g, hc, cost, t)[0])
    decreases |g.vertices| - |hc|, 1, |Neighbours(g, hc[|hc| - 1])| - t
  {
    var es := Neighbours(g, hc[|hc| - 1]);
    if t < |es| {
      TryFromFirst(g, hc, cost, t + 1);
      if es[t] !in hc {
        Extended(g, hc, t);
        SearchFirst(g, hc + [es[t]], cost + g.weight[(hc[|hc| - 1], es[t])]);
      }
    }
  }

  /**
   * From a vertex of the graph, the search finds a Hamiltonian cycle from that vertex with its
   * weight as cost; with two or more vertices it fails only when the graph has no Hamiltonian cycle.
   */
  lemma SearchFinds(g: Graph, start: int)
    requires Valid(g) && start in g.vertices
    ensures var a := Search(g, [start], 0);
      (a.found ==> HamiltonianCycle(g, a.hc) && a.hc[0] == start && a.cost == PathCost(g, a.hc)) &&
      (|g.vertices| >= 2 ==> (a.found <==> !forall c :: !HamiltonianCycle(g, c)))
  {
    SearchFirst(g, [start], 0);
    ExtendSound(g, [start], 0);
    var a := Search(g, [start], 0);
    if a.found {
      assert (a.hc, a.cost) in Extend(g, [start], 0);
      assert a.hc[..1] == [start];
    }
    if |g.vertices| >= 2 {
      NoCycles(g, start);
    }
  }

  // ---------------------------------------------------------------------------
  // `_2opt` and `_rotate` of the draft
  // ---------------------------------------------------------------------------

  /** Swapping the two vertices after position `i` is the 2-opt move that reverses that stretch of two. */
  lemma SwapIsTwoOpt(s: seq<int>, i: nat)
    requires i + 2 < |s|
    ensures s[i + 1 := s[i + 2]][i + 2 := s[i + 1]] == TwoOptMove(s, i, i + 2)
  {
    assert Reversed(s[i + 1..i + 3]) == [s[i + 2], s[i + 1]];
  }

  /**
   * The draft's `_2opt`: for each position `i` of the closed list with `i + 3` still on it, the
   * vertices at `i + 1` and `i + 2` change places when the edges `hc[i]`–`hc[i+2]` and
   * `hc[i+1]`–`hc[i+3]` exist and weigh strictly less than `hc[i]`–`hc[i+1]` and
   * `hc[i+2]`–`hc[i+3]`; the cost is moved by the difference. The list keeps its ends and stays
   * a path, the cost stays its weight up to the same offset, and any swap makes it lighter.
   */
  method AdjacentSwaps(g: Graph, hc: array<int>, cost: int) returns (edited: bool, newCost: int)
    requires Undirected(g) && Linked(g, hc[..])
    modifies hc
    ensures Rearranged(g, old(hc[..]), hc[..])
    ensures newCost - PathCost(g, hc[..]) == cost - PathCost(g, old(hc[..]))
    ensures edited ==> PathCost(g, hc[..]) < PathCost(g, old(hc[..]))
    ensures !edited ==> hc[..] == old(hc[..])
  {
    edited := false;
    newCost := cost;
    for i := 0 to Upto(hc.Length - 3)
      invariant Rearranged(g, old(hc[..]), hc[..])
      invariant newCost - PathCost(g, hc[..]) == cost - PathCost(g, old(hc[..]))
      invariant edited ==> PathCost(g, hc[..]) < PathCost(g, old(hc[..]))
      invariant !edited ==> hc[..] == old(hc[..])
    {
      ghost var before := hc[..];
      LinkedPair(g, before, i);
      LinkedPair(g, before, i + 2);
      var oldE1, oldE2 := GetEdge(g, hc[i], hc[i + 1]), GetEdge(g, hc[i + 2], hc[i + 3]);
      var newE1, newE2 := GetEdge(g, hc[i], hc[i + 2]), GetEdge(g, hc[i + 1], hc[i + 3]);
      if newE1.Some? && newE2.Some? {
        var oldW := oldE1.value + oldE2.value;
        var newW := newE1.value + newE2.value;
        if oldW > newW {
          edited := true;
          newCost := newCost - oldW + newW;
          hc[i + 1], hc[i + 2] := hc[i + 2], hc[i + 1];
          SwapIsTwoOpt(before, i);
          assert hc[..] == before[i + 1 := before[i + 2]][i + 2 := before[i + 1]];
          TwoOptCost(g, before, i, i + 2);
        }
      }
    }
  }

  /** The draft's `_rotate`: the closed list read from its second vertex and closed again; a list too short for `hc[1]` raises IndexError. */
  function RotateClosed(hc: seq<int>): (r: Result<seq<int>, Error>)
    ensures r.Failure? <==> |hc| < 2
    ensures r.Failure? ==> r.error == IndexError
    ensures r.Success? ==> |r.value| == |hc| && r.value[0] == hc[1] == r.value[|r.value| - 1]
  {
    if |hc| < 2 then Failure(IndexError) else Success(hc[1..] + [hc[1]])
  }

  /** Rotating a Hamiltonian cycle gives a Hamiltonian cycle of the same weight. */
  lemma RotateClosedCycle(g: Graph, hc: seq<int>)
    requires HamiltonianCycle(g, hc)
    ensures RotateClosed(hc).Success?
    ensures HamiltonianCycle(g, RotateClosed(hc).value) && PathCost(g, RotateClosed(hc).value) == PathCost(g, hc)
  {
    var n := if |hc| > 2 then 1 else 0;
    RotatedCycle(g, hc, n);
    var o := hc[..|hc| - 1];
    assert o[n..] + o[..n] + [o[n]] == hc[1..] + [hc[1]];
  }

  // ---------------------------------------------------------------------------
  // `excange_tour` of the draft
  // ---------------------------------------------------------------------------

  /**
   * The draft's `excange_tour` on the graph `g`: a first Hamiltonian cycle from the vertex drawn
   * at `pick`, then `_2opt` passes; a pass that swaps something resets the count, one that does
   * not rotates the cycle, and three passes in a row without a swap end the loop. The result is
   * a Hamiltonian cycle with its weight, no heavier than the first one found, or `None` when the
   * search finds nothing.
   */
  method DraftExcangeTour(g: Graph, pick: nat) returns (r: Result<Option<(seq<int>, int)>, Error>)
    requires Valid(g)
    ensures r.Failure? <==> |g.vertices| == 0
    ensures r.Failure? ==> r.error == IndexError
    ensures r.Success? ==> (r.value.None? <==> !Search(g, [g.vertices[pick % |g.vertices|]], 0).found)
    ensures r.Success? && r.value.Some? ==>
      HamiltonianCycle(g, r.value.value.0) && r.value.value.1 == PathCost(g, r.value.value.0) &&
      r.value.value.1 <= Search(g, [g.vertices[pick % |g.vertices|]], 0).cost
  {
    var first := RandomHamiltonianFrom(g, pick);
    if first.Failure? {
      return Failure(first.error);
    }
    var a := first.value;
    if !a.found {
      return Success(None);
    }
    SearchFinds(g, g.vertices[pick % |g.vertices|]);
    var hc := new int[|a.hc|](k requires 0 <= k < |a.hc| => a.hc[k]);
    assert hc[..] == a.hc;
    var cost := a.cost;
    ghost var floor := WeightFloor(g.weight);
    PathCostFloor(g, hc[..], floor);
    var cnt := 0;
    while cnt < 3
      invariant fresh(hc)
      invariant HamiltonianCycle(g, hc[..]) && cost == PathCost(g, hc[..]) && cost <= a.cost
      invariant cost >= |g.vertices| * floor
      decreases cost - |g.vertices| * floor, 3 - cnt
    {
      ghost var before := hc[..];
      var edited;
      edited, cost := AdjacentSwaps(g, hc, cost);
      if edited {
        RearrangedCycle(g, before, hc[..]);
        cnt := 0;
      } else {
        RotateClosedCycle(g, before);
        var rotated := RotateClosed(hc[..]).value;
        hc := new int[|rotated|](k requires 0 <= k < |rotated| => rotated[k]);
        assert hc[..] == rotated;
        cnt := cnt + 1;
      }
      PathCostFloor(g, hc[..], floor);
    }
    return Success(Some((hc[..], cost)));
  }
}
