/**
 * The undirected weighted graph the tour code searches, reduced to what the code reads from
 * it: the vertices in insertion order, each vertex's neighbours in the order
 * `incident_edges` lists them, and the weight of every edge. Vertices are integers; an edge
 * `{u, v}` is stored as both `(u, v)` and `(v, u)` with the same weight, and `get_edge(u, v)`
 * answers `None` for a pair that is not an edge.
 *
 * Paths and cycles are vertex sequences. `PathCost` is the weight of an open path; a cycle
 * given as an open list closes from its last vertex back to its first.
 */
module Graphs {
  import opened Wrappers
  import opened Sequences

  datatype Graph = Graph(vertices: seq<int>, adjacent: map<int, seq<int>>, weight: map<(int, int), int>)

  /** Every edge can be walked both ways at the same weight. */
  ghost predicate Undirected(g: Graph)
  {
    forall u, v {:trigger (u, v) in g.weight} :: (u, v) in g.weight ==> (v, u) in g.weight && g.weight[(v, u)] == g.weight[(u, v)]
  }

  lemma EdgeBack(g: Graph, u: int, v: int)
    requires Undirected(g) && (u, v) in g.weight
    ensures (v, u) in g.weight && g.weight[(v, u)] == g.weight[(u, v)]
  {
  }

  /** The neighbour lists and the weight map describe the same edges, over distinct vertices. */
  ghost predicate Valid(g: Graph)
  {
    Undirected(g) &&
    (forall a, b :: 0 <= a < b < |g.vertices| ==> g.vertices[a] != g.vertices[b]) &&
    (forall v :: v in g.adjacent <==> v in g.vertices) &&
    (forall u, v {:trigger (u, v) in g.weight} :: (u, v) in g.weight ==> u in g.adjacent && v in g.adjacent[u]) &&
    (forall u, t :: u in g.adjacent && 0 <= t < |g.adjacent[u]| ==> (u, g.adjacent[u][t]) in g.weight)
  }

  /** `g.get_edge(u, v)`: the weight of the edge, or `None` when `u` and `v` are not adjacent. */
  function GetEdge(g: Graph, u: int, v: int): (r: Option<int>)
    ensures r.Some? <==> (u, v) in g.weight
    ensures r.Some? ==> r.value == g.weight[(u, v)]
  {
    if (u, v) in g.weight then Some(g.weight[(u, v)]) else None
  }

  /** From position `t` on, every vertex is adjacent to the next. */
  predicate LinkedFrom(g: Graph, s: seq<int>, t: nat)
    decreases |s| - t
  {
    t + 1 >= |s| || ((s[t], s[t + 1]) in g.weight && LinkedFrom(g, s, t + 1))
  }

  /** Consecutive vertices are adjacent. */
  predicate Linked(g: Graph, s: seq<int>)
  {
    LinkedFrom(g, s, 0)
  }

  /** A path from position `t` on, position by position. */
  lemma {:induction false} LinkedFromAt(g: Graph, s: seq<int>, t: nat)
    ensures LinkedFrom(g, s, t) <==> forall u :: t <= u < |s| - 1 ==> (s[u], s[u + 1]) in g.weight
    decreases |s| - t
  {
    if t + 1 < |s| {
      LinkedFromAt(g, s, t + 1);
    }
  }

  /** A path, position by position: every vertex is adjacent to the next. */
  lemma LinkedAt(g: Graph, s: seq<int>)
    ensures Linked(g, s) <==> forall t :: 0 <= t < |s| - 1 ==> (s[t], s[t + 1]) in g.weight
  {
    LinkedFromAt(g, s, 0);
  }

  /** The pair at position `t` of a path is an edge. */
  lemma LinkedPair(g: Graph, s: seq<int>, t: nat)
    requires Linked(g, s) && t < |s| - 1
    ensures (s[t], s[t + 1]) in g.weight
  {
    LinkedAt(g, s);
  }

  /** A cycle listed open: consecutive vertices are adjacent and so are the last and the first. */
  predicate Tour(g: Graph, s: seq<int>)
  {
    Linked(g, s) && (|s| > 0 ==> (s[|s| - 1], s[0]) in g.weight)
  }

  /** No vertex occurs twice. */
  predicate Distinct(s: seq<int>)
  {
    forall a, b :: 0 <= a < b < |s| ==> s[a] != s[b]
  }

  /** The total weight of the edges of a path from position `t` on. */
  function CostFrom(g: Graph, s: seq<int>, t: nat): int
    requires LinkedFrom(g, s, t)
    decreases |s| - t
  {
    if t + 1 >= |s| then 0 else g.weight[(s[t], s[t + 1])] + CostFrom(g, s, t + 1)
  }

  /** The total weight of the edges of an open path. */
  function PathCost(g: Graph, s: seq<int>): int
    requires Linked(g, s)
  {
    CostFrom(g, s, 0)
  }

  /** The weight of a cycle listed open, closing edge included. */
  function CycleCost(g: Graph, s: seq<int>): int
    requires Tour(g, s)
  {
    if s == [] then 0 else PathCost(g, s) + g.weight[(s[|s| - 1], s[0])]
  }

  /** The second part of a joined path, read from its own position `t`. */
  lemma {:induction false} ShiftFrom(g: Graph, a: seq<int>, b: seq<int>, t: nat)
    ensures LinkedFrom(g, a + b, |a| + t) <==> LinkedFrom(g, b, t)
    ensures LinkedFrom(g, b, t) ==> CostFrom(g, a + b, |a| + t) == CostFrom(g, b, t)
    decreases |b| - t
  {
    if t + 1 < |b| {
      ShiftFrom(g, a, b, t + 1);
    }
  }

  /** A joined path, read from a position `t` in its first part. */
  lemma {:induction false} ConcatFrom(g: Graph, a: seq<int>, b: seq<int>, t: nat)
    requires t < |a| && |b| > 0
    ensures LinkedFrom(g, a + b, t) <==> LinkedFrom(g, a, t) && (a[|a| - 1], b[0]) in g.weight && Linked(g, b)
    ensures LinkedFrom(g, a + b, t) ==>
      CostFrom(g, a + b, t) == CostFrom(g, a, t) + g.weight[(a[|a| - 1], b[0])] + PathCost(g, b)
    decreases |a| - t
  {
    if t + 1 < |a| {
      ConcatFrom(g, a, b, t + 1);
    } else {
      ShiftFrom(g, a, b, 0);
    }
  }

  /** Two paths joined end to start form a path exactly when the junction is an edge. */
  lemma LinkedConcat(g: Graph, a: seq<int>, b: seq<int>)
    requires |a| > 0 && |b| > 0
    ensures Linked(g, a + b) <==> Linked(g, a) && Linked(g, b) && (a[|a| - 1], b[0]) in g.weight
  {
    ConcatFrom(g, a, b, 0);
  }

  /** The cost of a joined path is the cost of its parts plus the junction edge. */
  lemma CostConcat(g: Graph, a: seq<int>, b: seq<int>)
    requires |a| > 0 && |b| > 0 && Linked(g, a + b)
    ensures Linked(g, a) && Linked(g, b) && (a[|a| - 1], b[0]) in g.weight
    ensures PathCost(g, a + b) == PathCost(g, a) + g.weight[(a[|a| - 1], b[0])] + PathCost(g, b)
  {
    ConcatFrom(g, a, b, 0);
  }

  /** A path of two or more vertices is its first edge followed by the path from the second vertex. */
  lemma LinkedHead(g: Graph, s: seq<int>)
    requires |s| >= 2
    ensures Linked(g, s) <==> (s[0], s[1]) in g.weight && Linked(g, s[1..])
    ensures Linked(g, s) ==> PathCost(g, s) == g.weight[(s[0], s[1])] + PathCost(g, s[1..])
  {
    assert s == [s[0]] + s[1..];
    ConcatFrom(g, [s[0]], s[1..], 0);
  }

  /** A path walked backwards in an undirected graph is a path of the same cost. */
  lemma {:induction false} CostReverse(g: Graph, s: seq<int>)
    requires Undirected(g) && Linked(g, s)
    ensures Linked(g, Reversed(s)) && PathCost(g, Reversed(s)) == PathCost(g, s)
    decreases |s|
  {
    if |s| == 1 {
      assert Reversed(s) == s;
    } else if |s| >= 2 {
      var r := Reversed(s[1..]);
      LinkedHead(g, s);
      CostReverse(g, s[1..]);
      assert Reversed(s) == r + [s[0]];
      assert r[|r| - 1] == s[1];
      assert (s[0], s[1]) in g.weight;
      EdgeBack(g, s[0], s[1]);
      LinkedConcat(g, r, [s[0]]);
      CostConcat(g, r, [s[0]]);
    }
  }

  /** Reading a cycle from another vertex keeps it a cycle of the same cost. */
  lemma CycleCostRotate(g: Graph, s: seq<int>, n: nat)
    requires Tour(g, s) && n <= |s|
    ensures Tour(g, s[n..] + s[..n]) && CycleCost(g, s[n..] + s[..n]) == CycleCost(g, s)
  {
    if 0 < n < |s| {
      var a, b := s[..n], s[n..];
      assert s == a + b;
      CostConcat(g, a, b);
      LinkedConcat(g, b, a);
      CostConcat(g, b, a);
    } else if n == 0 {
      assert s[n..] + s[..n] == s;
    } else {
      assert s[n..] + s[..n] == s;
    }
  }

  /** A cycle listed closed, its first vertex repeated at the end, is a path exactly when the open list is a cycle, and weighs the same. */
  lemma ClosedTour(g: Graph, o: seq<int>)
    requires |o| > 0
    ensures Linked(g, o + [o[0]]) <==> Tour(g, o)
    ensures Tour(g, o) ==> PathCost(g, o + [o[0]]) == CycleCost(g, o)
  {
    LinkedConcat(g, o, [o[0]]);
    if Tour(g, o) {
      CostConcat(g, o, [o[0]]);
    }
  }

  /** The position after `t` in a list read round the end. */
  function Succ(t: nat, n: nat): (r: nat)
    requires t < n
    ensures r < n && (r == t + 1 || (r == 0 && t == n - 1))
  {
    if t + 1 < n then t + 1 else 0
  }

  /** The first `n` vertices are each adjacent to the next one, the last wrapping round to the start. */
  predicate LinkedAround(g: Graph, s: seq<int>, n: nat)
  {
    n <= |s| && forall t :: 0 <= t < n ==> (s[t], s[Succ(t, |s|)]) in g.weight
  }

  /** A cycle listed open is exactly a list whose every vertex is adjacent to the next, round the end. */
  lemma TourAround(g: Graph, s: seq<int>)
    ensures Tour(g, s) <==> LinkedAround(g, s, |s|)
  {
    LinkedAt(g, s);
    if LinkedAround(g, s, |s|) && |s| > 0 {
      assert Succ(|s| - 1, |s|) == 0;
      forall t | 0 <= t < |s| - 1
        ensures (s[t], s[t + 1]) in g.weight
      {
        assert Succ(t, |s|) == t + 1;
      }
    }
  }

  /** The weight of the first `n` consecutive pairs of a list, the last pair wrapping round to the start. */
  function Around(g: Graph, s: seq<int>, n: nat): int
    requires LinkedAround(g, s, n)
  {
    if n == 0 then 0 else Around(g, s, n - 1) + g.weight[(s[n - 1], s[Succ(n - 1, |s|)])]
  }

  /** Summing the wrap-around pairs is the cycle cost. */
  lemma {:induction false} AroundIsCycleCost(g: Graph, s: seq<int>)
    requires Tour(g, s)
    ensures LinkedAround(g, s, |s|) && Around(g, s, |s|) == CycleCost(g, s)
  {
    TourAround(g, s);
    if |s| > 0 {
      AroundPrefix(g, s, |s| - 1);
      assert s[..|s|] == s;
    }
  }

  lemma {:induction false} AroundPrefix(g: Graph, s: seq<int>, n: nat)
    requires Tour(g, s) && n < |s|
    ensures LinkedAround(g, s, n) && Linked(g, s[..n + 1]) && Around(g, s, n) == PathCost(g, s[..n + 1])
  {
    TourAround(g, s);
    if n > 0 {
      AroundPrefix(g, s, n - 1);
      assert s[..n + 1] == s[..n] + [s[n]];
      assert Succ(n - 1, |s|) == n;
      LinkedConcat(g, s[..n], [s[n]]);
      CostConcat(g, s[..n], [s[n]]);
    }
  }

  /** Some weight lies at or below every edge weight. */
  lemma WeightFloor(w: map<(int, int), int>) returns (m: int)
    ensures forall e :: e in w ==> w[e] >= m
    decreases |w.Keys|
  {
    if w == map[] {
      m := 0;
    } else {
      var e :| e in w;
      var rest := w - {e};
      assert |rest.Keys| < |w.Keys| by {
        assert rest.Keys == w.Keys - {e};
      }
      var m' := WeightFloor(rest);
      m := if w[e] < m' then w[e] else m';
      forall e' | e' in w
        ensures w[e'] >= m
      {
        if e' != e {
          assert e' in rest;
        }
      }
    }
  }

  /** A path of `|s|` vertices costs at least `|s| - 1` times any floor on the weights. */
  lemma {:induction false} PathCostFloor(g: Graph, s: seq<int>, m: int)
    requires Linked(g, s) && forall e :: e in g.weight ==> g.weight[e] >= m
    ensures |s| > 0 ==> PathCost(g, s) >= (|s| - 1) * m
    decreases |s|
  {
    if |s| >= 2 {
      LinkedHead(g, s);
      PathCostFloor(g, s[1..], m);
    }
  }

  /** A cycle of `|s|` vertices costs at least `|s|` times any floor on the weights. */
  lemma CycleCostFloor(g: Graph, s: seq<int>, m: int)
    requires Tour(g, s) && forall e :: e in g.weight ==> g.weight[e] >= m
    ensures CycleCost(g, s) >= |s| * m
  {
    PathCostFloor(g, s, m);
  }
}
