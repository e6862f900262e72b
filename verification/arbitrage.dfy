/**
 * `arbitrage_opportunity(C, s)` (project2/negative_cycle_detector.py): Bellman–Ford from the
 * currency `s` over the directed graph of exchange rates, a last pass looking for an edge
 * that can still be relaxed and, when there is one, a walk back from `s` along the
 * predecessor map in search of a cycle through `s`.
 *
 * Currencies are named by their codes, here `int`s, and rates are integer weights (the
 * source's `round(..., 3)` of floats is not modelled); `float('inf')` is `Inf`. The dicts `D`
 * and `prev` that the source updates are local `map`s of the methods.
 */
module ArbitrageDetector {
  import opened Wrappers
  import opened Exceptions
  import opened Sequences
  import opened Graphs
  import opened TourSearch

  /** A directed edge `u -> v` with the exchange weight `w`. */
  datatype Edge = Edge(u: int, v: int, w: int)

  /** The directed graph of `_create_graph`: its vertices, and its edges in the order `g.edges()` lists them. */
  datatype Digraph = Digraph(vertices: seq<int>, edges: seq<Edge>)

  /** Vertices are distinct and every edge joins two of them. */
  ghost predicate ValidDigraph(g: Digraph)
  {
    Distinct(g.vertices) && forall e :: e in g.edges ==> e.u in g.vertices && e.v in g.vertices
  }

  /** Some edge goes from `u` to `v`. */
  ghost predicate EdgeFrom(g: Digraph, u: int, v: int)
  {
    exists i :: 0 <= i < |g.edges| && g.edges[i].u == u && g.edges[i].v == v
  }

  // ---------------------------------------------------------------------------
  // Distances with Python's float('inf')
  // ---------------------------------------------------------------------------

  datatype Dist = Finite(d: int) | Inf

  /** `D[u] + w`, where `inf + w` is `inf`. */
  function Add(a: Dist, w: int): Dist
  {
    match a
    case Inf => Inf
    case Finite(x) => Finite(x + w)
  }

  /** Python's `a > b` with `inf` above every number and not above itself. */
  predicate Above(a: Dist, b: Dist)
  {
    match a
    case Inf => b.Finite?
    case Finite(x) => b.Finite? && x > b.d
  }

  /** `D[v] > D[u] + w`: the edge can still be relaxed. */
  predicate Violated(D: map<int, Dist>, e: Edge)
    requires e.u in D && e.v in D
  {
    Above(D[e.v], Add(D[e.u], e.w))
  }

  /** `D` has an entry for exactly the vertices. */
  ghost predicate Covers(g: Digraph, D: map<int, Dist>)
  {
    forall v :: v in D <==> v in g.vertices
  }

  /** No entry of `D'` is above the entry of `D`. */
  ghost predicate NoHigher(D: map<int, Dist>, D': map<int, Dist>)
  {
    forall v :: v in D && v in D' ==> !Above(D'[v], D[v])
  }

  /** Every `prev[v] = u` was set along an edge `u -> v`. */
  ghost predicate AlongEdges(g: Digraph, prev: map<int, int>)
  {
    forall v :: v in prev ==> EdgeFrom(g, prev[v], v)
  }

  /** No edge can be relaxed. */
  ghost predicate Settled(g: Digraph, D: map<int, Dist>)
    requires ValidDigraph(g) && Covers(g, D)
  {
    forall e :: e in g.edges ==> !Violated(D, e)
  }

  // ---------------------------------------------------------------------------
  // Step 1: initialise single source
  // ---------------------------------------------------------------------------

  /** The starting distances: 0 at `s`, `inf` everywhere else. */
  ghost function Start(g: Digraph, s: int): map<int, Dist>
  {
    map v | v in g.vertices :: if v == s then Finite(0) else Inf
  }

  /**
   * The loop of step 1: `D[vert] = 0` for the vertex of `s` and `inf` for every other one.
   * (The source tests `vert.element() is s`, object identity; here currencies are their codes.)
   */
  method InitialDistances(g: Digraph, s: int) returns (D: map<int, Dist>)
    ensures Covers(g, D) && D == Start(g, s)
    ensures forall v :: v in D ==> (D[v] == Finite(0) <==> v == s)
  {
    D := map[];
    for i := 0 to |g.vertices|
      invariant forall v :: v in D <==> v in g.vertices[..i]
      invariant forall v :: v in D ==> D[v] == if v == s then Finite(0) else Inf
    {
      var vert := g.vertices[i];
      if vert == s {
        D := D[vert := Finite(0)];
      } else {
        D := D[vert := Inf];
      }
    }
    assert g.vertices[..|g.vertices|] == g.vertices;
  }

  // ---------------------------------------------------------------------------
  // Step 2: relax every edge, |V| times
  // ---------------------------------------------------------------------------

  /** Relaxing the edge `e`: when `D[v] > D[u] + w`, `D[v] := D[u] + w` and `prev[v] := u`. */
  function Relax(D: map<int, Dist>, prev: map<int, int>, e: Edge): (map<int, Dist>, map<int, int>)
    requires e.u in D && e.v in D
  {
    if Violated(D, e) then (D[e.v := Add(D[e.u], e.w)], prev[e.v := e.u]) else (D, prev)
  }

  /** Relaxing the first `k` edges of `g` in order: the entries kept, none raised, `prev` along edges. */
  ghost function RelaxFirst(g: Digraph, D: map<int, Dist>, prev: map<int, int>, k: nat): (r: (map<int, Dist>, map<int, int>))
    requires ValidDigraph(g) && Covers(g, D) && k <= |g.edges|
    ensures Covers(g, r.0) && NoHigher(D, r.0)
    ensures AlongEdges(g, prev) ==> AlongEdges(g, r.1)
  {
    if k == 0 then
      (D, prev)
    else
      var before := RelaxFirst(g, D, prev, k - 1);
      var e := g.edges[k - 1];
      assert e in g.edges;
      var after := Relax(before.0, before.1, e);
      assert forall v :: v in after.1 && v != e.v ==> v in before.1 && after.1[v] == before.1[v];
      assert EdgeFrom(g, e.u, e.v) by {
        assert g.edges[k - 1].u == e.u && g.edges[k - 1].v == e.v;
      }
      after
  }

  /** `n` passes of relaxation over all the edges. */
  ghost function Passes(g: Digraph, D: map<int, Dist>, prev: map<int, int>, n: nat): (r: (map<int, Dist>, map<int, int>))
    requires ValidDigraph(g) && Covers(g, D)
    ensures Covers(g, r.0) && NoHigher(D, r.0)
    ensures AlongEdges(g, prev) ==> AlongEdges(g, r.1)
  {
    if n == 0 then
      (D, prev)
    else
      var before := Passes(g, D, prev, n - 1);
      RelaxFirst(g, before.0, before.1, |g.edges|)
  }

  /** The distances and predecessors that steps 1 and 2 compute from `s`. */
  ghost function BellmanFord(g: Digraph, s: int): (r: (map<int, Dist>, map<int, int>))
    requires ValidDigraph(g)
    ensures Covers(g, r.0) && AlongEdges(g, r.1)
    ensures s in g.vertices ==> r.0[s].Finite?
  {
    var r := Passes(g, Start(g, s), map[], |g.vertices|);
    assert s in g.vertices ==> Start(g, s)[s] == Finite(0);
    r
  }

  /** One pass of step 2: every edge in order, relaxed when `D[v] > D[u] + w`. */
  method RelaxEdges(g: Digraph, D: map<int, Dist>, prev: map<int, int>) returns (D': map<int, Dist>, prev': map<int, int>)
    requires ValidDigraph(g) && Covers(g, D)
    ensures (D', prev') == RelaxFirst(g, D, prev, |g.edges|)
  {
    D', prev' := D, prev;
    for i := 0 to |g.edges|
      invariant (D', prev') == RelaxFirst(g, D, prev, i)
    {
      var e := g.edges[i];
      assert e in g.edges;
      if Above(D'[e.v], Add(D'[e.u], e.w)) {
        D' := D'[e.v := Add(D'[e.u], e.w)];
        prev' := prev'[e.v := e.u];
      }
    }
  }

  /** Step 2: `for _ in range(g.vertex_count())`, one pass over the edges each time. */
  method RelaxPasses(g: Digraph, D: map<int, Dist>, prev: map<int, int>) returns (D': map<int, Dist>, prev': map<int, int>)
    requires ValidDigraph(g) && Covers(g, D)
    ensures (D', prev') == Passes(g, D, prev, |g.vertices|)
  {
    D', prev' := D, prev;
    for n := 0 to |g.vertices|
      invariant (D', prev') == Passes(g, D, prev, n)
    {
      D', prev' := RelaxEdges(g, D', prev');
    }
  }

  // ---------------------------------------------------------------------------
  // Step 3: look for an edge that can still be relaxed
  // ---------------------------------------------------------------------------

  /** The last loop, lines 70-73: the position of the first edge that can still be relaxed, if any. */
  method FirstViolated(g: Digraph, D: map<int, Dist>) returns (r: Option<nat>)
    requires ValidDigraph(g) && Covers(g, D)
    ensures r.None? <==> Settled(g, D)
    ensures r.Some? ==> r.value < |g.edges| && Violated(D, g.edges[r.value])
    ensures r.Some? ==> forall j :: 0 <= j < r.value ==> !Violated(D, g.edges[j])
  {
    for i := 0 to |g.edges|
      invariant forall j :: 0 <= j < i ==> !Violated(D, g.edges[j])
    {
      if Violated(D, g.edges[i]) {
        return Some(i);
      }
    }
    forall e | e in g.edges
      ensures !Violated(D, e)
    {
      var j :| 0 <= j < |g.edges| && g.edges[j] == e;
    }
    return None;
  }

  // ---------------------------------------------------------------------------
  // A settled graph has no negative cycle through a vertex of finite distance
  // ---------------------------------------------------------------------------

  /** A closed walk: edges of the graph, each ending where the next starts, the last where the first starts. */
  ghost predicate ClosedWalk(g: Digraph, c: seq<Edge>)
  {
    |c| > 0 && (forall i :: 0 <= i < |c| ==> c[i] in g.edges) &&
    (forall i :: 0 <= i < |c| - 1 ==> c[i].v == c[i + 1].u) && c[|c| - 1].v == c[0].u
  }

  /** The weight of the first `k` edges of a walk. */
  function WeightUpTo(c: seq<Edge>, k: nat): int
    requires k <= |c|
  {
    if k == 0 then 0 else WeightUpTo(c, k - 1) + c[k - 1].w
  }

  /** Along a walk from a vertex of finite distance in a settled graph, `D` of the end is at most `D` of the start plus the weight. */
  lemma {:induction false} SettledBound(g: Digraph, D: map<int, Dist>, c: seq<Edge>, k: nat)
    requires ValidDigraph(g) && Covers(g, D) && Settled(g, D)
    requires 0 < k <= |c| && forall i :: 0 <= i < k ==> c[i] in g.edges
    requires forall i :: 0 <= i < k - 1 ==> c[i].v == c[i + 1].u
    requires D[c[0].u].Finite?
    ensures D[c[k - 1].v].Finite? && D[c[k - 1].v].d <= D[c[0].u].d + WeightUpTo(c, k)
  {
    var e := c[k - 1];
    assert e in g.edges && !Violated(D, e);
    if k > 1 {
      SettledBound(g, D, c, k - 1);
    }
  }

  /** When no edge can be relaxed, every closed walk through a vertex of finite distance weighs at least 0. */
  lemma NoNegativeCycle(g: Digraph, D: map<int, Dist>, c: seq<Edge>)
    requires ValidDigraph(g) && Covers(g, D) && Settled(g, D)
    requires ClosedWalk(g, c) && D[c[0].u].Finite?
    ensures WeightUpTo(c, |c|) >= 0
  {
    SettledBound(g, D, c, |c|);
  }

  // ---------------------------------------------------------------------------
  // Walking back along `prev` from `s`
  // ---------------------------------------------------------------------------

  /** The `k`-th ancestor of `s` along `prev` (`s` itself for 0), `None` once an entry is missing. */
  ghost function Ancestor(prev: map<int, int>, s: int, k: nat): Option<int>
  {
    if k == 0 then
      Some(s)
    else
      match Ancestor(prev, s, k - 1)
      case Some(x) => if x in prev then Some(prev[x]) else None
      case None => None
  }

  /** Equal ancestors have equal ancestors from there on. */
  lemma {:induction false} AncestorShift(prev: map<int, int>, s: int, a: nat, b: nat, t: nat)
    ensures Ancestor(prev, s, a) == Ancestor(prev, s, b) ==> Ancestor(prev, s, a + t) == Ancestor(prev, s, b + t)
  {
    if t > 0 {
      AncestorShift(prev, s, a, b, t - 1);
    }
  }

  /**
   * What the walk finds: the cycle (listed from `s`) when it gets back to `s`, a missing
   * `prev` entry (the source's `KeyError`), or, since `while True` need not end, a walk
   * that never gets back to `s`.
   */
  datatype Walk = Closed(cycle: seq<int>) | Broken | Unending

  /** `c`, read from `s`, is the walk back along `prev` reversed, and it gets back to `s` only at its end. */
  ghost predicate BackCycle(prev: map<int, int>, s: int, c: seq<int>)
  {
    |c| > 0 && c[0] == s &&
    (forall m :: 1 <= m <= |c| ==> Ancestor(prev, s, m) == Some(c[|c| - m])) &&
    (forall m :: 0 < m < |c| ==> c[m] != s)
  }

  /** The walk stays away from `s` for `n` steps. */
  ghost predicate AwayFrom(prev: map<int, int>, s: int, n: nat)
  {
    forall m :: 1 <= m <= n ==> Ancestor(prev, s, m).Some? && Ancestor(prev, s, m) != Some(s)
  }

  /** The values of `prev` are vertices. */
  ghost predicate PrevOnVertices(g: Digraph, prev: map<int, int>)
  {
    forall v :: v in prev ==> prev[v] in g.vertices
  }

  /**
   * `cycle = []; curr = V[s]; while True: p = prev[curr]; cycle.append(p); if p == V[s]:
   * cycle.reverse(); return cycle; curr = p`, stopped after `|V|` steps: by then the walk has
   * repeated a vertex other than `s` and can never get back to `s`.
   */
  method WalkBack(g: Digraph, prev: map<int, int>, s: int) returns (r: Walk)
    requires ValidDigraph(g) && s in g.vertices && PrevOnVertices(g, prev)
    ensures r.Closed? ==> BackCycle(prev, s, r.cycle)
    ensures r.Broken? ==> exists k: nat :: AwayFrom(prev, s, k) && Ancestor(prev, s, k + 1).None?
    ensures r.Unending? ==> forall n :: AwayFrom(prev, s, n)
  {
    var cycle: seq<int> := [];
    var curr := s;
    while |cycle| < |g.vertices|
      invariant Ancestor(prev, s, |cycle|) == Some(curr)
      invariant forall m :: 0 <= m < |cycle| ==> Ancestor(prev, s, m + 1) == Some(cycle[m])
      invariant AwayFrom(prev, s, |cycle|)
      invariant forall m :: 0 <= m < |cycle| ==> cycle[m] != s && cycle[m] in g.vertices
      decreases |g.vertices| - |cycle|
    {
      if curr !in prev {
        assert Ancestor(prev, s, |cycle| + 1).None?;
        return Broken;
      }
      var p := prev[curr];
      WalkStep(g, prev, s, cycle, curr);
      cycle := cycle + [p];
      if p == s {
        ClosedBack(prev, s, cycle);
        return Closed(Reversed(cycle));
      }
      curr := p;
    }
    NeverBack(g, prev, s, cycle);
    return Unending;
  }

  /** One more step back from `curr` extends the ancestors walked so far. */
  lemma WalkStep(g: Digraph, prev: map<int, int>, s: int, cycle: seq<int>, curr: int)
    requires PrevOnVertices(g, prev) && curr in prev
    requires Ancestor(prev, s, |cycle|) == Some(curr)
    requires forall m :: 0 <= m < |cycle| ==> Ancestor(prev, s, m + 1) == Some(cycle[m])
    ensures var c := cycle + [prev[curr]];
      Ancestor(prev, s, |c|) == Some(prev[curr]) && prev[curr] in g.vertices &&
      forall m :: 0 <= m < |c| ==> Ancestor(prev, s, m + 1) == Some(c[m])
  {
  }

  /** A walk back that has just reached `s` again, read in reverse, is a cycle through `s`. */
  lemma ClosedBack(prev: map<int, int>, s: int, cycle: seq<int>)
    requires |cycle| > 0 && cycle[|cycle| - 1] == s
    requires forall m :: 0 <= m < |cycle| ==> Ancestor(prev, s, m + 1) == Some(cycle[m])
    requires forall m :: 0 <= m < |cycle| - 1 ==> cycle[m] != s
    ensures BackCycle(prev, s, Reversed(cycle))
  {
    var c := Reversed(cycle);
    forall m | 1 <= m <= |c|
      ensures Ancestor(prev, s, m) == Some(c[|c| - m])
    {
      assert c[|c| - m] == cycle[m - 1];
    }
  }

  /** `|V|` steps away from `s` repeat a vertex, after which the walk goes round without `s`. */
  lemma NeverBack(g: Digraph, prev: map<int, int>, s: int, cycle: seq<int>)
    requires ValidDigraph(g) && s in g.vertices && |cycle| >= |g.vertices|
    requires forall m :: 0 <= m < |cycle| ==> Ancestor(prev, s, m + 1) == Some(cycle[m])
    requires forall m :: 0 <= m < |cycle| ==> cycle[m] != s && cycle[m] in g.vertices
    requires AwayFrom(prev, s, |cycle|)
    ensures forall n :: AwayFrom(prev, s, n)
  {
    var o := cycle[..|g.vertices|];
    assert !Distinct(o) by {
      ElemsBound(o);
      ElemsBound(g.vertices);
      var a, b := Elems(o), Elems(g.vertices) - {s};
      forall x | x in a
        ensures x in b
      {
        var m :| 0 <= m < |o| && o[m] == x;
        assert cycle[m] == x;
      }
      assert a * b == a;
      assert |b| == |b - a| + |a * b|;
      assert |b| == |Elems(g.vertices)| - 1;
    }
    var i, j :| 0 <= i < j < |o| && o[i] == o[j];
    assert Ancestor(prev, s, i + 1) == Ancestor(prev, s, j + 1);
    forall n: nat
      ensures AwayFrom(prev, s, n)
    {
      forall m | 1 <= m <= n
        ensures Ancestor(prev, s, m).Some? && Ancestor(prev, s, m) != Some(s)
      {
        GoesRound(prev, s, |cycle|, i + 1, j + 1, m);
      }
    }
  }

  /** Once the `a`-th and `b`-th ancestors agree (`a < b <= n`), every ancestor repeats one of the first `n`. */
  lemma {:induction false} GoesRound(prev: map<int, int>, s: int, n: nat, a: nat, b: nat, m: nat)
    requires 1 <= a < b <= n && Ancestor(prev, s, a) == Ancestor(prev, s, b) && AwayFrom(prev, s, n)
    requires m >= 1
    ensures Ancestor(prev, s, m).Some? && Ancestor(prev, s, m) != Some(s)
    decreases m
  {
    if m > n {
      var t := m - b;
      AncestorShift(prev, s, a, b, t);
      assert Ancestor(prev, s, a + t) == Ancestor(prev, s, m);
      GoesRound(prev, s, n, a, b, a + t);
    }
  }

  /** Read from `s`, a cycle found by the walk visits no vertex twice and runs along edges of the graph. */
  lemma BackCycleSimple(g: Digraph, prev: map<int, int>, s: int, c: seq<int>)
    requires AlongEdges(g, prev) && BackCycle(prev, s, c)
    ensures Distinct(c)
    ensures forall m :: 0 <= m < |c| - 1 ==> EdgeFrom(g, c[m], c[m + 1])
    ensures EdgeFrom(g, c[|c| - 1], c[0])
  {
    var k := |c|;
    forall a, b | 0 < a < b < k
      ensures c[a] != c[b]
    {
      // c[a] is ancestor k - a and c[b] ancestor k - b: were they equal, ancestor k - b + a,
      // which is c[b - a], would be ancestor k, which is s
      AncestorShift(prev, s, k - b, k - a, a);
      assert Ancestor(prev, s, k - b + a) == Some(c[b - a]);
    }
    forall m | 0 <= m < k - 1
      ensures EdgeFrom(g, c[m], c[m + 1])
    {
      assert Ancestor(prev, s, k - m - 1) == Some(c[m + 1]);
      assert Ancestor(prev, s, k - m) == Some(c[m]);
    }
    assert Ancestor(prev, s, 1) == Some(c[k - 1]);
  }

  // ---------------------------------------------------------------------------
  // `arbitrage_opportunity`
  // ---------------------------------------------------------------------------

  /**
   * The answers of `arbitrage_opportunity`: `None` (`s` not among the currencies), `False`
   * (no edge can still be relaxed), a cycle from `s`, `(False, prev)` when the walk back from
   * `s` finds no predecessor, and, in this model only, the walk that never ends.
   */
  datatype Arbitrage = NotInSet | NoOpportunity | Opportunity(cycle: seq<int>) | Unreached(prev: map<int, int>) | Endless(prev: map<int, int>)

  /**
   * The guard at line 47 as written, `V[s._code] not in g.vertices()`: for a code that is
   * not a key of `V` the lookup raises KeyError, and for one that is, its vertex is in the
   * graph, so the guard is never true and `return None` is never reached.
   */
  function MissingAsWritten(g: Digraph, s: int): (r: Result<bool, Error>)
    ensures r.Failure? <==> s !in g.vertices
    ensures r != Success(true)
  {
    if s in g.vertices then Success(s !in g.vertices) else Failure(KeyError)
  }

  /**
   * `arbitrage_opportunity(C, s)` on the graph of `C`, with the membership test as documented:
   * `None` when `s` is not in the set. Otherwise `False` exactly when no edge can be relaxed
   * after `|V|` passes, and then there is no negative cycle through `s`; else the walk back
   * from `s` along `prev` gives a simple cycle through `s` along the edges, `(False, prev)`, or
   * never ends.
   */
  method ArbitrageOpportunity(g: Digraph, s: int) returns (r: Arbitrage)
    requires ValidDigraph(g)
    ensures r == NotInSet <==> s !in g.vertices
    ensures s in g.vertices ==> (r == NoOpportunity <==> Settled(g, BellmanFord(g, s).0))
    ensures r == NoOpportunity ==> forall c: seq<Edge> :: ClosedWalk(g, c) && c[0].u == s ==> WeightUpTo(c, |c|) >= 0
    ensures r.Opportunity? ==>
      |r.cycle| > 0 && r.cycle[0] == s && Distinct(r.cycle) && EdgeFrom(g, r.cycle[|r.cycle| - 1], s) &&
      (forall m :: 0 <= m < |r.cycle| - 1 ==> EdgeFrom(g, r.cycle[m], r.cycle[m + 1])) &&
      BackCycle(BellmanFord(g, s).1, s, r.cycle)
    ensures r.Unreached? ==>
      r.prev == BellmanFord(g, s).1 && exists k: nat :: AwayFrom(r.prev, s, k) && Ancestor(r.prev, s, k + 1).None?
    ensures r.Endless? ==> r.prev == BellmanFord(g, s).1 && forall n :: AwayFrom(r.prev, s, n)
  {
    if s !in g.vertices {
      return NotInSet;
    }
    var D := InitialDistances(g, s);
    var prev: map<int, int> := map[];
    D, prev := RelaxPasses(g, D, prev);
    ghost var bf := BellmanFord(g, s);
    assert (D, prev) == bf;
    var bad := FirstViolated(g, D);
    if bad.None? {
      forall c: seq<Edge> | ClosedWalk(g, c) && c[0].u == s
        ensures WeightUpTo(c, |c|) >= 0
      {
        NoNegativeCycle(g, D, c);
      }
      return NoOpportunity;
    }
    assert PrevOnVertices(g, prev) by {
      forall v | v in prev
        ensures prev[v] in g.vertices
      {
        var i :| 0 <= i < |g.edges| && g.edges[i].u == prev[v] && g.edges[i].v == v;
        assert g.edges[i] in g.edges;
      }
    }
    var w := WalkBack(g, prev, s);
    match w
    case Closed(c) =>
      BackCycleSimple(g, prev, s, c);
      return Opportunity(c);
    case Broken =>
      return Unreached(prev);
    case Unending =>
      return Endless(prev);
  }
}
