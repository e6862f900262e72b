/**
 * Exhaustive search for Hamiltonian cycles by backtracking (project2/excange_tour/excange_tour.py
 * and the earlier draft project2/excange_tour.py). A path `hc` grows one neighbour of its last
 * vertex at a time, in the order `incident_edges` lists them, never revisiting a vertex; once it
 * holds every vertex and its ends are adjacent it closes into a cycle, listed with its first vertex
 * repeated at the end.
 *
 * `_hamiltonian_brute_force` yields every such cycle from a start vertex; here the generator is
 * the sequence of everything it yields (`Branches`), and the method builds that sequence. The
 * draft's `_random_hamiltonian` stops at the first cycle (`Search`). The random start vertex is a
 * parameter.
 */
module TourSearch {
  import opened Wrappers
  import opened Exceptions
  import opened Graphs
  import opened TourMoves

  /** The vertices `incident_edges(v)` leads to, in its order. */
  function Neighbours(g: Graph, v: int): seq<int>
  {
    if v in g.adjacent then g.adjacent[v] else []
  }

  /** Every vertex of `s` is a vertex of the graph. */
  ghost predicate OnVertices(g: Graph, s: seq<int>)
  {
    forall t :: 0 <= t < |s| ==> s[t] in g.vertices
  }

  /** The set of the elements of a list. */
  ghost function Elems(s: seq<int>): set<int>
  {
    set x | x in s
  }

  lemma {:induction false} ElemsBound(s: seq<int>)
    ensures |Elems(s)| <= |s|
    ensures |Elems(s)| == |s| <==> Distinct(s)
  {
    if s != [] {
      ElemsBound(s[1..]);
      assert Elems(s) == {s[0]} + Elems(s[1..]);
      if s[0] in s[1..] {
        assert Elems(s) == Elems(s[1..]);
        assert !Distinct(s) by {
          var b :| 0 <= b < |s[1..]| && s[1..][b] == s[0];
          assert s[0] == s[b + 1];
        }
      } else {
        if Distinct(s) {
          assert Distinct(s[1..]) by {
            forall a, b | 0 <= a < b < |s[1..]|
              ensures s[1..][a] != s[1..][b]
            {
              assert s[1..][a] == s[a + 1] && s[1..][b] == s[b + 1];
            }
          }
        } else {
          var a, b :| 0 <= a < b < |s| && s[a] == s[b];
          if a > 0 {
            assert s[1..][a - 1] == s[a] && s[1..][b - 1] == s[b];
          }
        }
      }
    }
  }

  /** A repetition-free list of vertices is no longer than the vertex list. */
  lemma Pigeonhole(g: Graph, s: seq<int>)
    requires Distinct(s) && OnVertices(g, s)
    ensures |s| <= |g.vertices|
  {
    ElemsBound(s);
    ElemsBound(g.vertices);
    var a, b := Elems(s), Elems(g.vertices);
    assert a <= b;
    assert a * b == a;
    assert |b| == |b - a| + |a * b|;
  }

  /** A path of the search: a non-empty list of distinct vertices of the graph. */
  ghost predicate SearchPath(g: Graph, hc: seq<int>)
  {
    0 < |hc| <= |g.vertices| && Distinct(hc) && OnVertices(g, hc)
  }

  /** The neighbour at position `t` of the path's last vertex, when not on the path, extends it to a longer path along an edge. */
  lemma Extended(g: Graph, hc: seq<int>, t: nat)
    requires Valid(g) && SearchPath(g, hc) && t < |Neighbours(g, hc[|hc| - 1])|
    requires Neighbours(g, hc[|hc| - 1])[t] !in hc
    ensures var o := Neighbours(g, hc[|hc| - 1])[t];
      (hc[|hc| - 1], o) in g.weight && SearchPath(g, hc + [o]) && |hc| < |g.vertices|
  {
    var u := hc[|hc| - 1];
    var o := g.adjacent[u][t];
    assert (u, o) in g.weight;
    EdgeBack(g, u, o);
    assert o in g.adjacent;
    var s := hc + [o];
    assert Distinct(s) by {
      forall a, b | 0 <= a < b < |s|
        ensures s[a] != s[b]
      {
        if b < |hc| {
          assert s[a] == hc[a] && s[b] == hc[b];
        } else {
          assert s[a] == hc[a];
        }
      }
    }
    assert OnVertices(g, s) by {
      forall a | 0 <= a < |s|
        ensures s[a] in g.vertices
      {
        if a < |hc| {
          assert s[a] == hc[a];
        }
      }
    }
    Pigeonhole(g, s);
  }

  // ---------------------------------------------------------------------------
  // What the generator yields
  // ---------------------------------------------------------------------------

  /**
   * What `_hamiltonian_brute_force` yields right after appending a vertex to `hc`: once every
   * vertex is on the path, the closed cycle when its ends are adjacent (its cost being `cost`
   * plus the closing edge); otherwise whatever the search from the new last vertex yields.
   */
  ghost function Extend(g: Graph, hc: seq<int>, cost: int): seq<(seq<int>, int)>
    requires Valid(g) && SearchPath(g, hc)
    decreases |g.vertices| - |hc| + 1, 0, 0
  {
    if |g.vertices| == |hc| then
      (if (hc[0], hc[|hc| - 1]) in g.weight then [(hc + [hc[0]], cost + g.weight[(hc[0], hc[|hc| - 1])])] else [])
    else
      Branches(g, hc, cost, 0)
  }

  /** What the search from the last vertex of `hc` yields, trying its neighbours from position `t` on. */
  ghost function Branches(g: Graph, hc: seq<int>, cost: int, t: nat): seq<(seq<int>, int)>
    requires Valid(g) && SearchPath(g, hc)
    decreases |g.vertices| - |hc|, 2, |Neighbours(g, hc[|hc| - 1])| - t
  {
    if t >= |Neighbours(g, hc[|hc| - 1])| then [] else Branch(g, hc, cost, t) + Branches(g, hc, cost, t + 1)
  }

  /** What trying the neighbour at position `t` yields: nothing when it is on the path already. */
  ghost function Branch(g: Graph, hc: seq<int>, cost: int, t: nat): seq<(seq<int>, int)>
    requires Valid(g) && SearchPath(g, hc) && t < |Neighbours(g, hc[|hc| - 1])|
    decreases |g.vertices| - |hc|, 1, 0
  {
    var o := Neighbours(g, hc[|hc| - 1])[t];
    if o in hc then []
    else
      Extended(g, hc, t);
      Extend(g, hc + [o], cost + g.weight[(hc[|hc| - 1], o)])
  }

  /** What trying a neighbour yields: nothing when it is on the path, else the search one vertex deeper. */
  lemma BranchIs(g: Graph, hc: seq<int>, cost: int, t: nat)
    requires Valid(g) && SearchPath(g, hc) && t < |Neighbours(g, hc[|hc| - 1])|
    ensures var o := Neighbours(g, hc[|hc| - 1])[t];
      (o in hc ==> Branch(g, hc, cost, t) == []) &&
      (o !in hc ==>
        (hc[|hc| - 1], o) in g.weight && SearchPath(g, hc + [o]) &&
        Branch(g, hc, cost, t) == Extend(g, hc + [o], cost + g.weight[(hc[|hc| - 1], o)]))
  {
    if Neighbours(g, hc[|hc| - 1])[t] !in hc {
      Extended(g, hc, t);
    }
  }

  /**
   * `_hamiltonian_brute_force(g, curr, hc, cost)` with `curr` the last vertex of `hc`: every
   * neighbour not yet on the path is tried in turn and what each try yields is collected.
   */
  method HamiltonianBruteForce(g: Graph, hc: seq<int>, cost: int) returns (out: seq<(seq<int>, int)>)
    requires Valid(g) && SearchPath(g, hc)
    ensures out == Branches(g, hc, cost, 0)
    decreases |g.vertices| - |hc|, 1
  {
    var es := Neighbours(g, hc[|hc| - 1]);
    out := [];
    for t := 0 to |es|
      invariant out + Branches(g, hc, cost, t) == Branches(g, hc, cost, 0)
    {
      var found := TryNeighbour(g, hc, cost, t);
      out := out + found;
    }
  }

  /**
   * One pass of the loop in `_hamiltonian_brute_force`: the neighbour at position `t`, when not on
   * the path, is appended; with every vertex on the path the closing edge is looked up and the
   * closed cycle yielded if it exists, otherwise the search goes on from the neighbour; then the
   * neighbour is popped again.
   */
  method TryNeighbour(g: Graph, hc: seq<int>, cost: int, t: nat) returns (found: seq<(seq<int>, int)>)
    requires Valid(g) && SearchPath(g, hc) && t < |Neighbours(g, hc[|hc| - 1])|
    ensures found == Branch(g, hc, cost, t)
    decreases |g.vertices| - |hc|, 0
  {
    var curr := hc[|hc| - 1];
    var o := Neighbours(g, curr)[t];
    BranchIs(g, hc, cost, t);
    found := [];
    if o !in hc {
      var w := g.weight[(curr, o)];
      var path := hc + [o];
      if |g.vertices| == |path| {
        var ce := GetEdge(g, path[0], path[|path| - 1]);
        if ce.Some? {
          found := [(path + [path[0]], cost + w + ce.value)];
        }
      } else {
        found := HamiltonianBruteForce(g, path, cost + w);
      }
    }
  }

  // ---------------------------------------------------------------------------
  // Everything yielded is a Hamiltonian cycle, and every Hamiltonian cycle is yielded
  // ---------------------------------------------------------------------------

  /**
   * A Hamiltonian cycle listed closed: `|V| + 1` vertices of the graph, each adjacent to the next,
   * the last equal to the first and none repeated before it.
   */
  ghost predicate HamiltonianCycle(g: Graph, c: seq<int>)
  {
    |c| == |g.vertices| + 1 && |c| >= 2 && c[|c| - 1] == c[0] && Distinct(c[..|c| - 1]) &&
    OnVertices(g, c) && Linked(g, c)
  }

  /** `c` begins with `hc`. */
  ghost predicate StartsWith(c: seq<int>, hc: seq<int>)
  {
    |hc| <= |c| && c[..|hc|] == hc
  }

  lemma StartsWithShorter(c: seq<int>, hc: seq<int>, o: int)
    requires StartsWith(c, hc + [o])
    ensures StartsWith(c, hc)
  {
    assert c[..|hc|] == c[..|hc| + 1][..|hc|];
  }

  /** The vertex after a proper prefix of a cycle of distinct vertices is not on the prefix, and extends it. */
  lemma StartsWithLonger(c: seq<int>, hc: seq<int>)
    requires StartsWith(c, hc) && |hc| < |c| - 1 && Distinct(c[..|c| - 1])
    ensures c[|hc|] !in hc && StartsWith(c, hc + [c[|hc|]])
  {
    var n := |hc|;
    forall a | 0 <= a < n
      ensures hc[a] != c[n]
    {
      assert c[..|c| - 1][a] == hc[a] && c[..|c| - 1][n] == c[n];
    }
    assert c[..n + 1] == hc + [c[n]];
  }

  /** Everything in `ys` is a Hamiltonian cycle beginning with `hc`, paired with its weight. */
  ghost predicate Sound(g: Graph, hc: seq<int>, ys: seq<(seq<int>, int)>)
  {
    forall y :: y in ys ==> HamiltonianCycle(g, y.0) && StartsWith(y.0, hc) && y.1 == PathCost(g, y.0)
  }

  lemma SoundShorter(g: Graph, hc: seq<int>, o: int, ys: seq<(seq<int>, int)>)
    requires Sound(g, hc + [o], ys)
    ensures Sound(g, hc, ys)
  {
    forall y | y in ys
      ensures StartsWith(y.0, hc)
    {
      StartsWithShorter(y.0, hc, o);
    }
  }

  /** A path of the search whose cost is its weight. */
  ghost predicate Walked(g: Graph, hc: seq<int>, cost: int)
  {
    Valid(g) && SearchPath(g, hc) && Linked(g, hc) && cost == PathCost(g, hc)
  }

  /** One more vertex, along an edge, keeps the cost the weight of the path. */
  lemma WalkedStep(g: Graph, hc: seq<int>, cost: int, o: int)
    requires Walked(g, hc, cost) && SearchPath(g, hc + [o]) && (hc[|hc| - 1], o) in g.weight
    ensures Walked(g, hc + [o], cost + g.weight[(hc[|hc| - 1], o)])
  {
    LinkedConcat(g, hc, [o]);
    CostConcat(g, hc, [o]);
  }

  lemma {:induction false} ExtendSound(g: Graph, hc: seq<int>, cost: int)
    requires Walked(g, hc, cost)
    ensures Sound(g, hc, Extend(g, hc, cost))
    decreases |g.vertices| - |hc| + 1, 0, 0
  {
    if |g.vertices| == |hc| {
      var n := |hc|;
      if (hc[0], hc[n - 1]) in g.weight {
        var c := hc + [hc[0]];
        EdgeBack(g, hc[0], hc[n - 1]);
        LinkedConcat(g, hc, [hc[0]]);
        CostConcat(g, hc, [hc[0]]);
        assert c[..n] == hc;
        assert OnVertices(g, c) by {
          forall a | 0 <= a < |c|
            ensures c[a] in g.vertices
          {
            if a < n {
              assert c[a] == hc[a];
            }
          }
        }
      }
    } else {
      BranchesSound(g, hc, cost, 0);
    }
  }

  lemma {:induction false} BranchesSound(g: Graph, hc: seq<int>, cost: int, t: nat)
    requires Walked(g, hc, cost)
    ensures Sound(g, hc, Branches(g, hc, cost, t))
    decreases |g.vertices| - |hc|, 2, |Neighbours(g, hc[|hc| - 1])| - t
  {
    if t < |Neighbours(g, hc[|hc| - 1])| {
      BranchSound(g, hc, cost, t);
      BranchesSound(g, hc, cost, t + 1);
    }
  }

  lemma {:induction false} BranchSound(g: Graph, hc: seq<int>, cost: int, t: nat)
    requires Walked(g, hc, cost) && t < |Neighbours(g, hc[|hc| - 1])|
    ensures Sound(g, hc, Branch(g, hc, cost, t))
    decreases |g.vertices| - |hc|, 1, 0
  {
    var o := Neighbours(g, hc[|hc| - 1])[t];
    BranchIs(g, hc, cost, t);
    if o !in hc {
      var next, cost' := hc + [o], cost + g.weight[(hc[|hc| - 1], o)];
      WalkedStep(g, hc, cost, o);
      ExtendSound(g, next, cost');
      SoundShorter(g, hc, o, Extend(g, next, cost'));
    }
  }

  lemma {:induction false} ExtendComplete(g: Graph, hc: seq<int>, cost: int, c: seq<int>)
    requires Walked(g, hc, cost) && HamiltonianCycle(g, c) && StartsWith(c, hc)
    ensures (c, PathCost(g, c)) in Extend(g, hc, cost)
    decreases |g.vertices| - |hc| + 1, 0, 0
  {
    var n := |hc|;
    LinkedPair(g, c, n - 1);
    assert c[n - 1] == c[..n][n - 1] == hc[n - 1];
    if |g.vertices| == n {
      assert c == hc + [hc[0]];
      EdgeBack(g, hc[n - 1], hc[0]);
      CostConcat(g, hc, [hc[0]]);
    } else {
      var es := Neighbours(g, hc[n - 1]);
      assert c[n] in es;
      var u :| 0 <= u < |es| && es[u] == c[n];
      BranchesComplete(g, hc, cost, 0, c, u);
    }
  }

  lemma {:induction false} BranchesComplete(g: Graph, hc: seq<int>, cost: int, t: nat, c: seq<int>, u: nat)
    requires Walked(g, hc, cost) && HamiltonianCycle(g, c) && StartsWith(c, hc) && |hc| < |g.vertices|
    requires t <= u < |Neighbours(g, hc[|hc| - 1])| && Neighbours(g, hc[|hc| - 1])[u] == c[|hc|]
    ensures (c, PathCost(g, c)) in Branches(g, hc, cost, t)
    decreases |g.vertices| - |hc|, 2, |Neighbours(g, hc[|hc| - 1])| - t
  {
    if t == u {
      BranchComplete(g, hc, cost, t, c);
    } else {
      BranchesComplete(g, hc, cost, t + 1, c, u);
    }
  }

  lemma {:induction false} BranchComplete(g: Graph, hc: seq<int>, cost: int, t: nat, c: seq<int>)
    requires Walked(g, hc, cost) && HamiltonianCycle(g, c) && StartsWith(c, hc) && |hc| < |g.vertices|
    requires t < |Neighbours(g, hc[|hc| - 1])| && Neighbours(g, hc[|hc| - 1])[t] == c[|hc|]
    ensures (c, PathCost(g, c)) in Branch(g, hc, cost, t)
    decreases |g.vertices| - |hc|, 1, 0
  {
    var n := |hc|;
    var o := c[n];
    StartsWithLonger(c, hc);
    BranchIs(g, hc, cost, t);
    var next, cost' := hc + [o], cost + g.weight[(hc[n - 1], o)];
    WalkedStep(g, hc, cost, o);
    ExtendComplete(g, next, cost', c);
  }

  // ---------------------------------------------------------------------------
  // `excange_tour_brute_force`: the cheapest cycle
  // ---------------------------------------------------------------------------

  /** Everything `_hamiltonian_brute_force(g)` yields when its random start vertex is `start`. */
  ghost function Cycles(g: Graph, start: int): seq<(seq<int>, int)>
    requires Valid(g) && start in g.vertices
  {
    Branches(g, [start], 0, 0)
  }

  /** The search from `start` yields only Hamiltonian cycles from `start`, each with its weight. */
  lemma CyclesSound(g: Graph, start: int)
    requires Valid(g) && start in g.vertices
    ensures forall y :: y in Cycles(g, start) ==> HamiltonianCycle(g, y.0) && y.0[0] == start && y.1 == PathCost(g, y.0)
  {
    BranchesSound(g, [start], 0, 0);
    forall y | y in Cycles(g, start)
      ensures y.0[0] == start
    {
      assert y.0[..1] == [start];
    }
  }

  /** The search from `start` yields every Hamiltonian cycle from `start` (with two or more vertices). */
  lemma CyclesComplete(g: Graph, start: int, c: seq<int>)
    requires Valid(g) && start in g.vertices && |g.vertices| >= 2
    requires HamiltonianCycle(g, c) && c[0] == start
    ensures (c, PathCost(g, c)) in Cycles(g, start)
  {
    assert StartsWith(c, [start]);
    var es := Neighbours(g, start);
    LinkedPair(g, c, 0);
    assert c[1] in es;
    var u :| 0 <= u < |es| && es[u] == c[1];
    BranchesComplete(g, [start], 0, 0, c, u);
  }

  /** A list of distinct vertices as long as the vertex list holds every vertex. */
  lemma Covering(g: Graph, s: seq<int>, v: int)
    requires Valid(g) && Distinct(s) && OnVertices(g, s) && |s| == |g.vertices| && v in g.vertices
    ensures v in s
  {
    ElemsBound(s);
    ElemsBound(g.vertices);
    var a, b := Elems(s), Elems(g.vertices);
    assert a <= b;
    assert a * b == a;
    assert |b| == |b - a| + |a * b|;
    assert v !in b - a;
  }

  /** Lists with the same elements counted with multiplicity have the same elements. */
  lemma SameElems(a: seq<int>, b: seq<int>)
    requires multiset(a) == multiset(b)
    ensures Elems(a) == Elems(b)
  {
    forall x
      ensures x in Elems(a) <==> x in Elems(b)
    {
      assert x in a <==> x in multiset(a);
      assert x in b <==> x in multiset(b);
    }
  }

  /** Reordering a list of distinct vertices of the graph gives one again. */
  lemma Reordered(g: Graph, a: seq<int>, b: seq<int>)
    requires multiset(a) == multiset(b) && Distinct(a) && OnVertices(g, a)
    ensures Distinct(b) && OnVertices(g, b)
  {
    SameElems(a, b);
    ElemsBound(a);
    ElemsBound(b);
    assert |a| == |multiset(a)| == |multiset(b)| == |b|;
    forall t | 0 <= t < |b|
      ensures b[t] in g.vertices
    {
      assert b[t] in Elems(b);
    }
  }

  /** A Hamiltonian cycle read from its vertex at position `n` instead of its first is a Hamiltonian cycle of the same weight. */
  lemma RotatedCycle(g: Graph, c: seq<int>, n: nat)
    requires HamiltonianCycle(g, c) && n < |c| - 1
    ensures var o := c[..|c| - 1];
      var r := o[n..] + o[..n] + [o[n]];
      HamiltonianCycle(g, r) && r[0] == c[n] && PathCost(g, r) == PathCost(g, c)
  {
    var o := c[..|c| - 1];
    assert c == o + [o[0]];
    ClosedTour(g, o);
    assert OnVertices(g, o) by {
      forall a | 0 <= a < |o|
        ensures o[a] in g.vertices
      {
        assert o[a] == c[a];
      }
    }
    var o' := o[n..] + o[..n];
    CycleCostRotate(g, o, n);
    ClosedTour(g, o');
    assert o == o[..n] + o[n..];
    Reordered(g, o, o');
    var r := o' + [o'[0]];
    assert r == o[n..] + o[..n] + [o[n]];
    assert r[..|r| - 1] == o';
    assert OnVertices(g, r) by {
      forall a | 0 <= a < |r|
        ensures r[a] in g.vertices
      {
        assert r[a] == if a < |o'| then o'[a] else o'[0];
      }
    }
  }

  /** Any Hamiltonian cycle can be read from any vertex of the graph as a Hamiltonian cycle of the same weight. */
  lemma RotateCycle(g: Graph, c: seq<int>, start: int) returns (r: seq<int>)
    requires Valid(g) && HamiltonianCycle(g, c) && start in g.vertices
    ensures HamiltonianCycle(g, r) && r[0] == start && PathCost(g, r) == PathCost(g, c)
  {
    var o := c[..|c| - 1];
    assert OnVertices(g, o) by {
      forall a | 0 <= a < |o|
        ensures o[a] in g.vertices
      {
        assert o[a] == c[a];
      }
    }
    Covering(g, o, start);
    var n :| 0 <= n < |o| && o[n] == start;
    RotatedCycle(g, c, n);
    r := o[n..] + o[..n] + [o[n]];
  }

  /** A rearrangement of a Hamiltonian cycle that keeps it a path with the same ends keeps it a Hamiltonian cycle. */
  lemma RearrangedCycle(g: Graph, before: seq<int>, after: seq<int>)
    requires HamiltonianCycle(g, before) && Rearranged(g, before, after)
    ensures HamiltonianCycle(g, after)
  {
    var n := |before| - 1;
    assert before == before[..n] + [before[n]];
    assert after == after[..n] + [after[n]];
    assert after[n] == before[n];
    assert multiset(after) == multiset(after[..n]) + multiset{after[n]};
    assert multiset(before) == multiset(before[..n]) + multiset{before[n]};
    assert multiset(after[..n]) == multiset(after) - multiset{after[n]} == multiset(before[..n]);
    assert OnVertices(g, before[..n]) by {
      forall a | 0 <= a < n
        ensures before[..n][a] in g.vertices
      {
        assert before[..n][a] == before[a];
      }
    }
    Reordered(g, before[..n], after[..n]);
    assert OnVertices(g, after) by {
      forall a | 0 <= a < |after|
        ensures after[a] in g.vertices
      {
        if a < n {
          assert after[a] == after[..n][a];
        }
      }
    }
  }

  /** The cheapest cycle found is no dearer than any Hamiltonian cycle of the graph. */
  lemma CheapestCycle(g: Graph, start: int, best: (seq<int>, int), c: seq<int>)
    requires Valid(g) && start in g.vertices && |g.vertices| >= 2
    requires best in Cycles(g, start) && forall y :: y in Cycles(g, start) ==> best.1 <= y.1
    requires HamiltonianCycle(g, c)
    ensures HamiltonianCycle(g, best.0) && best.1 == PathCost(g, best.0) <= PathCost(g, c)
  {
    CyclesSound(g, start);
    var r := RotateCycle(g, c, start);
    CyclesComplete(g, start, r);
  }

  /** The search yields nothing exactly when the graph has no Hamiltonian cycle (two or more vertices). */
  lemma NoCycles(g: Graph, start: int)
    requires Valid(g) && start in g.vertices && |g.vertices| >= 2
    ensures Cycles(g, start) == [] <==> forall c :: !HamiltonianCycle(g, c)
  {
    CyclesSound(g, start);
    if c :| HamiltonianCycle(g, c) {
      var r := RotateCycle(g, c, start);
      CyclesComplete(g, start, r);
    } else if Cycles(g, start) != [] {
      assert Cycles(g, start)[0] in Cycles(g, start);
    }
  }

  /** Position `m` holds the first of the cheapest entries of `ys`. */
  ghost predicate FirstCheapest(ys: seq<(seq<int>, int)>, m: int)
  {
    0 <= m < |ys| &&
    (forall k :: 0 <= k < |ys| ==> ys[m].1 <= ys[k].1) &&
    (forall k :: 0 <= k < m ==> ys[m].1 < ys[k].1)
  }

  /**
   * The loop of `excange_tour_brute_force`: an entry replaces the one kept so far when nothing is
   * kept yet or it is strictly cheaper, so the first of the cheapest entries is kept.
   */
  method FirstMinimum(ys: seq<(seq<int>, int)>) returns (best: Option<(seq<int>, int)>)
    ensures best.None? <==> ys == []
    ensures best.Some? ==> exists m :: FirstCheapest(ys, m) && ys[m] == best.value
  {
    best := None;
    ghost var m := 0;
    for k := 0 to |ys|
      invariant best.None? <==> k == 0
      invariant best.Some? ==> m < k && ys[m] == best.value
      invariant best.Some? ==> FirstCheapest(ys[..k], m)
    {
      if best.None? || ys[k].1 < best.value.1 {
        best := Some(ys[k]);
        m := k;
      }
    }
    assert ys[..|ys|] == ys;
  }

  /**
   * `excange_tour_brute_force` on the graph `g`, whose start vertex `random.choice` draws at
   * position `pick`: the first yielded cycle of least cost, or `None` when nothing is yielded.
   * An empty vertex list makes `random.choice` raise `IndexError`.
   */
  method ExcangeTourBruteForce(g: Graph, pick: nat) returns (r: Result<Option<(seq<int>, int)>, Error>)
    requires Valid(g)
    ensures r.Failure? <==> |g.vertices| == 0
    ensures r.Failure? ==> r.error == IndexError
    ensures r.Success? ==> (r.value.None? <==> Cycles(g, g.vertices[pick % |g.vertices|]) == [])
    ensures r.Success? && r.value.Some? ==>
      var ys := Cycles(g, g.vertices[pick % |g.vertices|]);
      exists m :: FirstCheapest(ys, m) && ys[m] == r.value.value
  {
    if |g.vertices| == 0 {
      return Failure(IndexError);
    }
    var start := g.vertices[pick % |g.vertices|];
    var ys := HamiltonianBruteForce(g, [start], 0);
    var best := FirstMinimum(ys);
    return Success(best);
  }
}
