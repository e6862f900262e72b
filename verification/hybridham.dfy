/**
 * HybridHAM (project2/excange_tour/hybridham.py), the heuristic search for a Hamiltonian cycle
 * used by `excange_tour`, and its earlier draft (project2/hybridham.py).
 *
 * Phase 1 walks greedily from a vertex of highest degree, always to the first unvisited
 * neighbour in increasing order of degree, until it reaches a dead end. Phase 2 turns that path
 * into a Hamiltonian path, phase 3 turns a Hamiltonian path into a cycle; both use the rotational
 * transformation: an end `vx` of the path is joined to a neighbour `b` of it on the path, and
 * everything after `b` is read backwards.
 *
 * The Python list `path` that the phases change in place is a value here, passed in and handed
 * back. The random choices (`random.random() > 0.5` on a tie of degrees, `random.shuffle` of the
 * neighbours) come from a list of draws, one draw per pass of the phase 2 and phase 3 loops; when
 * the draws run out the run stops with `OutOfDraws`, since those loops need not end.
 */
module HybridHamiltonian {
  import opened Wrappers
  import opened Exceptions
  import opened Sequences
  import opened Graphs
  import opened TourMoves
  import opened TourSearch

  /** One pass's random choices: the coin for a tie of degrees and the rotation that stands for the shuffle. */
  datatype Draw = Draw(flip: bool, shift: nat)

  /** How a run ends: a `return` with its answer, falling off the end (Python's `None`), or no draws left. */
  datatype Outcome = Returned(found: bool) | FellOff | OutOfDraws

  /** How a run ends, with the path as it is then. */
  datatype Run = Run(outcome: Outcome, path: seq<int>)

  // ---------------------------------------------------------------------------
  // Degrees and the vertices in order of degree
  // ---------------------------------------------------------------------------

  /** `g.degree(v)`: the number of edges at `v`. */
  function Degree(g: Graph, v: int): nat
  {
    |Neighbours(g, v)|
  }

  /** The list is in non-decreasing order of degree. */
  ghost predicate ByDegree(g: Graph, s: seq<int>)
  {
    forall a, b :: 0 <= a < b < |s| ==> Degree(g, s[a]) <= Degree(g, s[b])
  }

  /** `x` placed before the first element whose degree is not smaller than its own. */
  function InsertByDegree(g: Graph, x: int, s: seq<int>): (r: seq<int>)
    ensures multiset(r) == multiset(s) + multiset{x}
  {
    if s == [] || Degree(g, x) <= Degree(g, s[0]) then
      [x] + s
    else
      assert s == [s[0]] + s[1..];
      [s[0]] + InsertByDegree(g, x, s[1..])
  }

  /** A vertex of degree at most every degree in an ordered list, put in front, keeps the list in order. */
  lemma ConsInOrder(g: Graph, y: int, s: seq<int>)
    requires ByDegree(g, s) && forall b :: 0 <= b < |s| ==> Degree(g, y) <= Degree(g, s[b])
    ensures ByDegree(g, [y] + s)
  {
    var r := [y] + s;
    forall a, b | 0 <= a < b < |r|
      ensures Degree(g, r[a]) <= Degree(g, r[b])
    {
      assert r[b] == s[b - 1];
      if a > 0 {
        assert r[a] == s[a - 1];
      }
    }
  }

  /** The tail of an ordered list is ordered, and no degree in it is below the head's. */
  lemma TailInOrder(g: Graph, s: seq<int>)
    requires ByDegree(g, s) && |s| > 0
    ensures ByDegree(g, s[1..])
    ensures forall b :: 0 <= b < |s[1..]| ==> Degree(g, s[0]) <= Degree(g, s[1..][b])
  {
    var tail := s[1..];
    forall a, b | 0 <= a < b < |tail|
      ensures Degree(g, tail[a]) <= Degree(g, tail[b])
    {
      assert tail[a] == s[a + 1] && tail[b] == s[b + 1];
    }
    forall b | 0 <= b < |tail|
      ensures Degree(g, s[0]) <= Degree(g, tail[b])
    {
      assert tail[b] == s[b + 1];
    }
  }

  /** Inserting into a list in order of degree keeps it in order. */
  lemma {:induction false} InsertedInOrder(g: Graph, x: int, s: seq<int>)
    requires ByDegree(g, s)
    ensures ByDegree(g, InsertByDegree(g, x, s))
  {
    if s == [] {
      ConsInOrder(g, x, s);
    } else if Degree(g, x) <= Degree(g, s[0]) {
      TailInOrder(g, s);
      ConsInOrder(g, x, s);
    } else {
      var tail := s[1..];
      TailInOrder(g, s);
      InsertedInOrder(g, x, tail);
      var rest := InsertByDegree(g, x, tail);
      forall b | 0 <= b < |rest|
        ensures Degree(g, s[0]) <= Degree(g, rest[b])
      {
        assert rest[b] in multiset(rest);
        if rest[b] != x {
          assert rest[b] in multiset(tail);
        }
      }
      ConsInOrder(g, s[0], rest);
    }
  }

  /**
   * `Va.sort(key=_by_degree)`: the vertices in non-decreasing order of degree. Python's sort is
   * stable, and so is this one: each vertex goes before the later ones of the same degree.
   */
  function SortByDegree(g: Graph, s: seq<int>): (r: seq<int>)
    ensures multiset(r) == multiset(s) && ByDegree(g, r)
  {
    if s == [] then
      []
    else
      assert s == [s[0]] + s[1..];
      var sorted := SortByDegree(g, s[1..]);
      InsertedInOrder(g, s[0], sorted);
      InsertByDegree(g, s[0], sorted)
  }

  // ---------------------------------------------------------------------------
  // `_greedy_dfs`
  // ---------------------------------------------------------------------------

  /** `v` can follow `vs`: `get_edge(vs, v)` is an edge and `v` is not yet on the path. */
  predicate Fresh(g: Graph, vs: int, path: seq<int>, v: int)
  {
    (vs, v) in g.weight && v !in path
  }

  /** No vertex before position `k` of `va` can follow `vs`. */
  ghost predicate NoneFreshBefore(g: Graph, vs: int, path: seq<int>, va: seq<int>, k: int)
    requires k <= |va|
  {
    forall k' :: 0 <= k' < k ==> !Fresh(g, vs, path, va[k'])
  }

  /** The first vertex of `va` that can follow `vs`, or `None` when `vs` is a dead end. */
  function FirstFresh(g: Graph, vs: int, path: seq<int>, va: seq<int>): (r: Option<int>)
    ensures r.Some? ==> r.value in va && Fresh(g, vs, path, r.value)
    ensures r.None? <==> forall v :: v in va ==> !Fresh(g, vs, path, v)
  {
    if va == [] then
      None
    else if Fresh(g, vs, path, va[0]) then
      Some(va[0])
    else
      assert va == [va[0]] + va[1..];
      FirstFresh(g, vs, path, va[1..])
  }

  /** The vertex found is the first of `va` that can follow `vs`: none before it can. */
  lemma {:induction false} FirstFreshIsFirst(g: Graph, vs: int, path: seq<int>, va: seq<int>)
    requires FirstFresh(g, vs, path, va).Some?
    ensures exists k :: 0 <= k < |va| && va[k] == FirstFresh(g, vs, path, va).value && NoneFreshBefore(g, vs, path, va, k)
  {
    if !Fresh(g, vs, path, va[0]) {
      var tail := va[1..];
      FirstFreshIsFirst(g, vs, path, tail);
      var k :| 0 <= k < |tail| && tail[k] == FirstFresh(g, vs, path, tail).value && NoneFreshBefore(g, vs, path, tail, k);
      assert va[k + 1] == tail[k];
      forall k' | 0 <= k' < k + 1
        ensures !Fresh(g, vs, path, va[k'])
      {
        if k' > 0 {
          assert va[k'] == tail[k' - 1];
        }
      }
    }
  }

  /** The `for v in va` loop of `_greedy_dfs`: the first vertex of `va` that can follow `vs`. */
  method NextFresh(g: Graph, vs: int, path: seq<int>, va: seq<int>) returns (vi: Option<int>)
    ensures vi == FirstFresh(g, vs, path, va)
  {
    var k := 0;
    while k < |va|
      invariant k <= |va|
      invariant FirstFresh(g, vs, path, va) == FirstFresh(g, vs, path, va[k..])
    {
      var v := va[k];
      var edge := GetEdge(g, vs, v);
      FirstFreshStep(g, vs, path, va, k);
      if edge.Some? && v !in path {
        return Some(v);
      }
      k := k + 1;
    }
    assert va[k..] == [];
    return None;
  }

  /** Scanning `va` from position `k`: the vertex there, or the scan from `k + 1`. */
  lemma FirstFreshStep(g: Graph, vs: int, path: seq<int>, va: seq<int>, k: int)
    requires 0 <= k < |va|
    ensures FirstFresh(g, vs, path, va[k..]) ==
      if Fresh(g, vs, path, va[k]) then Some(va[k]) else FirstFresh(g, vs, path, va[k + 1..])
  {
    assert va[k..][1..] == va[k + 1..];
  }

  /** A vertex that can follow the end of a path of the search extends it to a longer one along an edge. */
  lemma Stepped(g: Graph, path: seq<int>, v: int)
    requires Valid(g) && SearchPath(g, path) && Fresh(g, path[|path| - 1], path, v)
    ensures SearchPath(g, path + [v]) && |path| < |g.vertices|
    ensures Linked(g, path) ==> Linked(g, path + [v])
  {
    EdgeBack(g, path[|path| - 1], v);
    assert v in g.adjacent;
    var s := path + [v];
    assert Distinct(s) by {
      forall a, b | 0 <= a < b < |s|
        ensures s[a] != s[b]
      {
        if b < |path| {
          assert s[a] == path[a] && s[b] == path[b];
        } else {
          assert s[a] == path[a];
        }
      }
    }
    Pigeonhole(g, s);
    if Linked(g, path) {
      LinkedConcat(g, path, [v]);
    }
  }

  /** The path `_greedy_dfs` builds: extend by the first vertex of `va` that can follow the end, until none can. */
  function Greedy(g: Graph, va: seq<int>, path: seq<int>): seq<int>
    requires Valid(g) && SearchPath(g, path)
    decreases |g.vertices| - |path|
  {
    match FirstFresh(g, path[|path| - 1], path, va)
    case None => path
    case Some(v) =>
      Stepped(g, path, v);
      Greedy(g, va, path + [v])
  }

  /** No vertex of `va` can follow the end of `r`. */
  ghost predicate Stuck(g: Graph, va: seq<int>, r: seq<int>)
    requires |r| > 0
  {
    forall v :: v in va ==> !Fresh(g, r[|r| - 1], r, v)
  }

  /**
   * The greedy walk begins with the given path, stays a path of the search, is linked when the
   * given one is, and ends where no vertex of `va` can follow.
   */
  lemma {:induction false} GreedyWalk(g: Graph, va: seq<int>, path: seq<int>)
    requires Valid(g) && SearchPath(g, path)
    ensures var r := Greedy(g, va, path);
      SearchPath(g, r) && StartsWith(r, path) && (Linked(g, path) ==> Linked(g, r)) && Stuck(g, va, r)
    decreases |g.vertices| - |path|
  {
    match FirstFresh(g, path[|path| - 1], path, va)
    case None =>
      assert path[..|path|] == path;
      assert Stuck(g, va, path);
    case Some(v) =>
      Stepped(g, path, v);
      GreedyWalk(g, va, path + [v]);
      StartsWithShorter(Greedy(g, va, path + [v]), path, v);
  }

  /** `_greedy_dfs(g, vs, path, va)` with `vs` the end of `path`: the recursion with its loop. */
  method GreedyDfs(g: Graph, vs: int, path: seq<int>, va: seq<int>) returns (p: seq<int>)
    requires Valid(g) && SearchPath(g, path) && vs == path[|path| - 1]
    ensures p == Greedy(g, va, path)
    decreases |g.vertices| - |path|
  {
    var vi := NextFresh(g, vs, path, va);
    p := path;
    if vi.Some? {
      Stepped(g, path, vi.value);
      p := GreedyDfs(g, vi.value, path + [vi.value], va);
    }
  }

  /** Every neighbour of the path's last vertex is on the path. */
  ghost predicate DeadEnd(g: Graph, path: seq<int>)
    requires |path| > 0
  {
    AllOn(Neighbours(g, path[|path| - 1]), path)
  }

  /** Every element of `ns` is on the path. */
  ghost predicate AllOn(ns: seq<int>, path: seq<int>)
  {
    forall t :: 0 <= t < |ns| ==> ns[t] in path
  }

  /** Some element of `ns` is on the path. */
  ghost predicate SomeOn(ns: seq<int>, path: seq<int>)
  {
    exists t :: 0 <= t < |ns| && ns[t] in path
  }

  /** At a dead end a vertex with a neighbour has one on the path. */
  lemma DeadEndSomeOn(g: Graph, path: seq<int>)
    requires |path| > 0 && DeadEnd(g, path)
    ensures Neighbours(g, path[|path| - 1]) != [] ==> SomeOn(Neighbours(g, path[|path| - 1]), path)
  {
    var ns := Neighbours(g, path[|path| - 1]);
    if ns != [] {
      assert ns[0] in path;
    }
  }

  /** With every vertex in `va`, the greedy walk is a path of the search that ends where every neighbour is already on it. */
  lemma GreedyPath(g: Graph, va: seq<int>, path: seq<int>)
    requires Valid(g) && SearchPath(g, path) && multiset(va) == multiset(g.vertices)
    ensures var r := Greedy(g, va, path);
      SearchPath(g, r) && StartsWith(r, path) && (Linked(g, path) ==> Linked(g, r)) && DeadEnd(g, r)
  {
    GreedyWalk(g, va, path);
    var r := Greedy(g, va, path);
    var u := r[|r| - 1];
    forall t | 0 <= t < |Neighbours(g, u)|
      ensures Neighbours(g, u)[t] in r
    {
      assert u in g.adjacent;
      var w := g.adjacent[u][t];
      assert (u, w) in g.weight;
      EdgeBack(g, u, w);
      assert w in g.adjacent;
      assert w in g.vertices;
      assert w in multiset(va);
      assert w in va;
      assert !Fresh(g, u, r, w);
    }
  }

  /** The greedy walk from the single vertex `va[j]`. */
  ghost function GreedyFrom(g: Graph, va: seq<int>, j: nat): seq<int>
    requires Valid(g) && multiset(va) == multiset(g.vertices) && j < |va|
  {
    assert va[j] in multiset(g.vertices);
    Greedy(g, va, [va[j]])
  }

  /** The greedy walk from a vertex is a linked path of distinct vertices from it, ending at a dead end. */
  lemma GreedyFromPath(g: Graph, va: seq<int>, j: nat)
    requires Valid(g) && multiset(va) == multiset(g.vertices) && j < |va|
    ensures var r := GreedyFrom(g, va, j); SearchPath(g, r) && Linked(g, r) && DeadEnd(g, r) && r[0] == va[j]
  {
    assert va[j] in multiset(g.vertices);
    GreedyPath(g, va, [va[j]]);
    var r := Greedy(g, va, [va[j]]);
    assert r[..1] == [va[j]];
  }

  // ---------------------------------------------------------------------------
  // `_rotate_path` and `_rotational_transform`
  // ---------------------------------------------------------------------------

  /** `s.index(x)`: the first position of `x`. */
  function IndexOf(s: seq<int>, x: int): (i: nat)
    requires x in s
    ensures i < |s| && s[i] == x && x !in s[..i]
  {
    if s[0] == x then
      0
    else
      var i := IndexOf(s[1..], x);
      assert s[..i + 1] == [s[0]] + s[1..][..i];
      i + 1
  }

  /**
   * `_rotate_path(path, b)`: with `b` at position `i`, `path[i + 1:] = path[-1:i:-1]`, so the last
   * vertex comes right after `b` and the vertex after `b` becomes the last; when `b` is one of the
   * last two vertices nothing changes. `path.index` raises ValueError when `b` is not on the path.
   */
  function RotatePath(path: seq<int>, b: int): (r: Result<seq<int>, Error>)
    ensures r.Failure? <==> b !in path
    ensures r.Failure? ==> r.error == ValueError
    ensures r.Success? ==> |r.value| == |path| && multiset(r.value) == multiset(path)
    ensures r.Success? ==>
      var i := IndexOf(path, b);
      r.value[..i + 1] == path[..i + 1] &&
      (i < |path| - 2 ==> r.value[i + 1] == path[|path| - 1] && r.value[|path| - 1] == path[i + 1]) &&
      (i >= |path| - 2 ==> r.value == path)
  {
    if b !in path then
      Failure(ValueError)
    else
      var i := IndexOf(path, b);
      if i < |path| - 2 then
        var tail := path[i + 1..];
        ReversedMultiset(tail);
        assert path == path[..i + 1] + tail;
        Success(path[..i + 1] + Reversed(tail))
      else
        Success(path)
  }

  /** Rotating a linked path of distinct vertices at a neighbour of its end gives such a path again. */
  lemma RotatedPath(g: Graph, path: seq<int>, b: int)
    requires Valid(g) && SearchPath(g, path) && Linked(g, path)
    requires b in path && (path[|path| - 1], b) in g.weight
    ensures SearchPath(g, RotatePath(path, b).value) && Linked(g, RotatePath(path, b).value)
  {
    Reordered(g, path, RotatePath(path, b).value);
    RotatedLinked(g, path, b);
  }

  /** Rotating a linked path at a neighbour of its end keeps it linked. */
  lemma RotatedLinked(g: Graph, path: seq<int>, b: int)
    requires Valid(g) && Linked(g, path) && b in path && (path[|path| - 1], b) in g.weight
    ensures Linked(g, RotatePath(path, b).value)
  {
    var i := IndexOf(path, b);
    if i < |path| - 2 {
      var head, tail := path[..i + 1], path[i + 1..];
      assert path == head + tail;
      LinkedReversedTail(g, head, tail);
      assert RotatePath(path, b).value == head + Reversed(tail);
    }
  }

  /** Reversing the tail of a linked path keeps it linked when the tail's last vertex is adjacent to the head's last. */
  lemma LinkedReversedTail(g: Graph, head: seq<int>, tail: seq<int>)
    requires Valid(g) && |head| > 0 && |tail| > 0 && Linked(g, head + tail)
    requires (tail[|tail| - 1], head[|head| - 1]) in g.weight
    ensures Linked(g, head + Reversed(tail))
  {
    LinkedConcat(g, head, tail);
    CostReverse(g, tail);
    EdgeBack(g, tail[|tail| - 1], head[|head| - 1]);
    LinkedConcat(g, head, Reversed(tail));
  }

  /** The vertex before the end of a path is a neighbour of the end, on the path. */
  lemma PredecessorOnPath(g: Graph, path: seq<int>)
    requires Valid(g) && Linked(g, path) && |path| >= 2
    ensures path[|path| - 2] in Neighbours(g, path[|path| - 1]) && path[|path| - 2] in path
  {
    var u, w := path[|path| - 1], path[|path| - 2];
    LinkedPair(g, path, |path| - 2);
    EdgeBack(g, w, u);
  }

  /** Rotating at the vertex before the end leaves the path as it is: the transformation may change nothing. */
  lemma RotateByPredecessor(path: seq<int>)
    requires |path| >= 2 && Distinct(path)
    ensures RotatePath(path, path[|path| - 2]) == Success(path)
  {
    var i := IndexOf(path, path[|path| - 2]);
    assert path[i] == path[|path| - 2];
  }

  /**
   * `_rotational_transform(g, path)`: the neighbours of the last vertex `vx`, shuffled (here
   * rotated by `shift`, which can bring any of them to the front), are tried in turn, and the
   * first one on the path is the `b` at which the path is rotated. The answer is whether one was
   * found; `path[-1]` raises IndexError on an empty path.
   */
  method RotationalTransform(g: Graph, path: seq<int>, shift: nat) returns (r: Result<(bool, seq<int>), Error>)
    ensures r.Failure? <==> path == []
    ensures r.Failure? ==> r.error == IndexError
    ensures r.Success? ==>
      (r.value.0 <==> SomeOn(Neighbours(g, path[|path| - 1]), path))
    ensures r.Success? && !r.value.0 ==> r.value.1 == path
    ensures r.Success? && r.value.0 ==>
      var adj := RotatedLeft(Neighbours(g, path[|path| - 1]), shift);
      exists k :: 0 <= k < |adj| && adj[k] in path && RotatePath(path, adj[k]) == Success(r.value.1) &&
        forall k' :: 0 <= k' < k ==> adj[k'] !in path
    ensures r.Success? && Valid(g) && SearchPath(g, path) && Linked(g, path) ==>
      SearchPath(g, r.value.1) && Linked(g, r.value.1)
  {
    if path == [] {
      return Failure(IndexError);
    }
    var vx := path[|path| - 1];
    var adj := RotatedLeft(Neighbours(g, vx), shift);
    var k := 0;
    while k < |adj|
      invariant k <= |adj|
      invariant forall k' :: 0 <= k' < k ==> adj[k'] !in path
    {
      var v := adj[k];
      if v in path {
        assert v in multiset(Neighbours(g, vx));
        if Valid(g) && SearchPath(g, path) && Linked(g, path) {
          var t :| 0 <= t < |Neighbours(g, vx)| && Neighbours(g, vx)[t] == v;
          assert (vx, v) in g.weight;
          RotatedPath(g, path, v);
        }
        return Success((true, RotatePath(path, v).value));
      }
      k := k + 1;
    }
    forall t | 0 <= t < |Neighbours(g, vx)|
      ensures Neighbours(g, vx)[t] !in path
    {
      assert Neighbours(g, vx)[t] in multiset(adj);
    }
    return Success((false, path));
  }

  // ---------------------------------------------------------------------------
  // Phase 1: the longest greedy path from a vertex of highest degree
  // ---------------------------------------------------------------------------

  /** Position `j` (not the first) holds a vertex of the highest degree, the degree of the last vertex of `va`. */
  ghost predicate Top(g: Graph, va: seq<int>, j: int)
  {
    1 <= j < |va| && Degree(g, va[j]) == Degree(g, va[|va| - 1])
  }

  /** Phase 1 goes on to `va[i]` while its degree ties with the vertex tried before it, as its comment says. */
  predicate TiesInDegree(g: Graph, va: seq<int>, i: int)
    requires 0 <= i < |va|
  {
    i == |va| - 1 || Degree(g, va[i]) == Degree(g, va[i + 1])
  }

  /** The test at line 30 as written: `Va[i] == Va[i + 1]` compares the vertices, not their degrees. */
  predicate TiesAsWritten(va: seq<int>, i: int)
    requires 0 <= i < |va|
  {
    i == |va| - 1 || va[i] == va[i + 1]
  }

  /** Two different vertices of equal degree pass the intended test and fail the written one. */
  lemma TiesDiffer(g: Graph, va: seq<int>, i: nat)
    requires Distinct(va) && i < |va| - 1 && Degree(g, va[i]) == Degree(g, va[i + 1])
    ensures TiesInDegree(g, va, i) && !TiesAsWritten(va, i)
  {
    assert va[i] != va[i + 1];
  }

  /** `starts[j]` is the greedy path from `Va[j]`, for every position `j`. */
  ghost predicate GreedyStarts(g: Graph, va: seq<int>, starts: seq<seq<int>>)
    requires Valid(g) && multiset(va) == multiset(g.vertices)
  {
    |starts| == |va| && forall j :: 0 <= j < |va| ==> starts[j] == GreedyFrom(g, va, j)
  }

  /**
   * The state of phase 1 after the starts above `Va[i]` were tried: `path` is the first longest
   * of their greedy paths `starts[j]`, found from `Va[best]`, and every start tried has the
   * highest degree.
   */
  ghost predicate Scanned(g: Graph, va: seq<int>, starts: seq<seq<int>>, i: int, path: seq<int>, best: int)
    requires |starts| == |va|
  {
    -1 <= i < |va| &&
    (path == [] <==> i == |va| - 1) &&
    (path != [] ==> i < best < |va| && Top(g, va, best) && path == starts[best]) &&
    (i < |va| - 1 ==> Top(g, va, i + 1)) &&
    forall j :: i < j < |va| ==> |starts[j]| <= |path|
  }

  /**
   * The loop of phase 1 with the degree test: greedy paths from `Va[n-1]`, `Va[n-2]`, ... while
   * the degree ties (never from `Va[0]`, as `i > 0` stops the loop), keeping the first longest,
   * and stopping early at one with every vertex. `i` is where the loop stopped; the greedy
   * paths, `starts`, are named by the caller.
   */
  method TryTopStarts(g: Graph, va: seq<int>, ghost starts: seq<seq<int>>) returns (path: seq<int>, i: int, ghost best: int)
    requires Valid(g) && multiset(va) == multiset(g.vertices) && |starts| == |va|
    requires forall j :: 0 <= j < |va| ==> starts[j] == GreedyFrom(g, va, j)
    ensures Scanned(g, va, starts, i, path, best)
    ensures |path| == |g.vertices| || i <= 0 || !TiesInDegree(g, va, i)
  {
    path := [];
    i := |va| - 1;
    best := -1;
    while |path| != |g.vertices| && i > 0 && TiesInDegree(g, va, i)
      invariant Scanned(g, va, starts, i, path, best)
      decreases i
    {
      path, best := TryStart(g, va, starts, i, path, best);
      i := i - 1;
    }
  }

  /** The greedy path from `Va[i]` replaces `path` when it is longer. */
  method TryStart(g: Graph, va: seq<int>, ghost starts: seq<seq<int>>, i: nat, path: seq<int>, ghost best: int)
    returns (longer: seq<int>, ghost best': int)
    requires Valid(g) && multiset(va) == multiset(g.vertices) && |starts| == |va|
    requires 0 < i < |va| && starts[i] == GreedyFrom(g, va, i) && TiesInDegree(g, va, i)
    requires Scanned(g, va, starts, i, path, best)
    ensures Scanned(g, va, starts, i - 1, longer, best')
  {
    var vs := va[i];
    assert vs in multiset(g.vertices);
    longer := GreedyDfs(g, vs, [vs], va);
    assert longer == starts[i];
    GreedyFromPath(g, va, i);
    best' := i;
    if |longer| <= |path| {
      longer, best' := path, best;
    }
  }

  /**
   * Phase 1 with the degree test. With `Va` sorted by degree the result is a longest of the
   * greedy paths from the vertices of highest degree, and empty when the graph has fewer than
   * two vertices.
   */
  method FirstPhase(g: Graph, va: seq<int>) returns (path: seq<int>)
    requires Valid(g) && multiset(va) == multiset(g.vertices) && ByDegree(g, va)
    ensures |g.vertices| < 2 ==> path == []
    ensures |g.vertices| >= 2 ==> exists j :: Top(g, va, j) && path == GreedyFrom(g, va, j)
    ensures forall j :: Top(g, va, j) ==> |GreedyFrom(g, va, j)| <= |path|
    ensures |g.vertices| >= 2 ==> SearchPath(g, path) && Linked(g, path) && DeadEnd(g, path)
  {
    assert |va| == |multiset(va)| == |g.vertices|;
    var i;
    ghost var best;
    ghost var starts := seq(|va|, j requires 0 <= j < |va| => GreedyFrom(g, va, j));
    path, i, best := TryTopStarts(g, va, starts);
    if |path| != |g.vertices| && 0 < i {
      // the loop stopped at a degree below the highest
      assert !TiesInDegree(g, va, i) && Top(g, va, i + 1);
      forall j | 0 <= j <= i
        ensures Degree(g, va[j]) < Degree(g, va[|va| - 1])
      {
        if j < i {
          assert Degree(g, va[j]) <= Degree(g, va[i]);
        }
      }
    }
    forall j | Top(g, va, j)
      ensures |GreedyFrom(g, va, j)| <= |path|
    {
      if j <= i {
        GreedyFromPath(g, va, j);
      }
    }
    if |g.vertices| >= 2 {
      GreedyFromPath(g, va, best);
    }
  }

  /**
   * Phase 1 as line 30 writes it: after the first start `Va[n-1]` the test compares two
   * different vertices and fails, so exactly one greedy path is tried.
   */
  method FirstPhaseAsWritten(g: Graph, va: seq<int>) returns (path: seq<int>)
    requires Valid(g) && multiset(va) == multiset(g.vertices)
    ensures |g.vertices| < 2 ==> path == []
    ensures |g.vertices| >= 2 ==> path == GreedyFrom(g, va, |va| - 1)
  {
    assert |va| == |multiset(va)| == |g.vertices|;
    Reordered(g, g.vertices, va);
    path := [];
    var i := |va| - 1;
    while |path| != |g.vertices| && i > 0 && TiesAsWritten(va, i)
      invariant -1 <= i < |va|
      invariant i == |va| - 1 ==> path == []
      invariant i < |va| - 1 ==> i == |va| - 2 >= 0 && path == GreedyFrom(g, va, |va| - 1)
      decreases i
    {
      var vs := va[i];
      var newPath := GreedyDfs(g, vs, [vs], va);
      if |newPath| > |path| {
        path := newPath;
      }
      i := i - 1;
    }
  }

  /** Phase 1 of the draft: `Vd` is `Va` reversed and the test `Vd[i] == Vd[i - 1]` fails after `Vd[0]`. */
  method DraftFirstPhase(g: Graph, va: seq<int>) returns (path: seq<int>)
    requires Valid(g) && multiset(va) == multiset(g.vertices) && |va| > 0
    ensures path == GreedyFrom(g, va, |va| - 1)
    ensures SearchPath(g, path) && Linked(g, path) && DeadEnd(g, path)
  {
    assert |va| == |multiset(va)| == |g.vertices|;
    Reordered(g, g.vertices, va);
    var vd := Reversed(va);
    path := [];
    var i := 0;
    while |path| != |g.vertices| && (i == 0 || vd[i] == vd[i - 1])
      invariant 0 <= i <= 1
      invariant i == 0 ==> path == []
      invariant i == 1 ==> path == GreedyFrom(g, va, |va| - 1)
      decreases 1 - i
    {
      var vs := vd[i];
      var newPath := GreedyDfs(g, vs, [vs], va);
      if |newPath| > |path| {
        path := newPath;
      }
      i := i + 1;
    }
    GreedyFromPath(g, va, |va| - 1);
  }

  // ---------------------------------------------------------------------------
  // Phases 2 and 3
  // ---------------------------------------------------------------------------

  /** A path through every vertex of the graph once. */
  ghost predicate HamiltonianPath(g: Graph, p: seq<int>)
  {
    SearchPath(g, p) && Linked(g, p) && |p| == |g.vertices|
  }

  /** `rest` is what is left of `draws` after some passes. */
  ghost predicate Left(draws: seq<Draw>, rest: seq<Draw>)
  {
    |rest| <= |draws| && rest == draws[|draws| - |rest|..]
  }

  /**
   * One pass of phase 2 with draw `d`: put the end of higher degree last (a tie is settled by
   * the coin), rotate at it and extend greedily. It gives up when the rotation finds no
   * neighbour on the path, which happens only to a single vertex without neighbours, since a
   * longer path always has the vertex before its end.
   */
  method ExtendOnce(g: Graph, va: seq<int>, path: seq<int>, d: Draw) returns (next: seq<int>, gaveUp: bool)
    requires Valid(g) && multiset(va) == multiset(g.vertices)
    requires SearchPath(g, path) && Linked(g, path) && DeadEnd(g, path) && |path| != |g.vertices|
    ensures !gaveUp ==> SearchPath(g, next) && Linked(g, next) && DeadEnd(g, next)
    ensures gaveUp ==> |path| == 1 && |g.vertices| >= 2 && Neighbours(g, path[0]) == []
  {
    next := path;
    var front, back := Degree(g, next[0]), Degree(g, next[|next| - 1]);
    if front > back || (front == back && d.flip) {
      ReversedMultiset(next);
      CostReverse(g, next);
      Reordered(g, next, Reversed(next));
      next := Reversed(next);
    }
    if |next| >= 2 {
      PredecessorOnPath(g, next);
    } else {
      assert next == path;
    }
    var t := RotationalTransform(g, next, d.shift);
    if !t.value.0 {
      assert next == path;
      DeadEndSomeOn(g, path);
      return next, true;
    }
    next := t.value.1;
    next := GreedyDfs(g, next[|next| - 1], next, va);
    GreedyPath(g, va, t.value.1);
    gaveUp := false;
  }

  /**
   * Phase 2, the same in the draft: while the path misses a vertex, extend it by one pass; give
   * up (`return False`) when a pass does. The phase ends with a Hamiltonian path unless it gives
   * up or the draws run out.
   */
  method SecondPhase(g: Graph, va: seq<int>, start: seq<int>, draws: seq<Draw>)
    returns (path: seq<int>, rest: seq<Draw>, stop: Option<Outcome>)
    requires Valid(g) && multiset(va) == multiset(g.vertices)
    requires SearchPath(g, start) && Linked(g, start) && DeadEnd(g, start)
    ensures SearchPath(g, path) && Linked(g, path) && Left(draws, rest)
    ensures stop.None? ==> |path| == |g.vertices|
    ensures stop.Some? ==> stop.value == Returned(false) || stop.value == OutOfDraws
    ensures stop == Some(Returned(false)) ==> |path| == 1 && |g.vertices| >= 2 && Neighbours(g, path[0]) == []
  {
    path, rest, stop := start, draws, None;
    while |path| != |g.vertices|
      invariant SearchPath(g, path) && Linked(g, path) && DeadEnd(g, path) && Left(draws, rest)
      decreases |rest|
    {
      if rest == [] {
        stop := Some(OutOfDraws);
        return;
      }
      var d := rest[0];
      rest := rest[1..];
      var next, gaveUp := ExtendOnce(g, va, path, d);
      if gaveUp {
        stop := Some(Returned(false));
        return;
      }
      path := next;
    }
  }

  /**
   * Phase 3: while the ends of the Hamiltonian path are not adjacent, put the end of lower degree
   * last (a tie is settled by the coin) and rotate at it. Its `return False` cannot happen: a
   * Hamiltonian path of two or more vertices always has the vertex before its end to rotate at.
   */
  method ThirdPhase(g: Graph, start: seq<int>, draws: seq<Draw>) returns (path: seq<int>, stop: Outcome)
    requires Valid(g) && HamiltonianPath(g, start) && |start| >= 2
    ensures HamiltonianPath(g, path)
    ensures stop == Returned(true) || stop == OutOfDraws
    ensures stop == Returned(true) ==> (path[0], path[|path| - 1]) in g.weight
  {
    path := start;
    var rest := draws;
    while GetEdge(g, path[0], path[|path| - 1]).None?
      invariant HamiltonianPath(g, path)
      decreases |rest|
    {
      if rest == [] {
        return path, OutOfDraws;
      }
      var d := rest[0];
      rest := rest[1..];
      var front, back := Degree(g, path[0]), Degree(g, path[|path| - 1]);
      if front < back || (front == back && d.flip) {
        ReversedMultiset(path);
        CostReverse(g, path);
        Reordered(g, path, Reversed(path));
        path := Reversed(path);
      }
      PredecessorOnPath(g, path);
      var t := RotationalTransform(g, path, d.shift);
      // line 90's `return False`: the vertex before the end is always a neighbour on the path
      assert t.value.0;
      path := t.value.1;
    }
    stop := Returned(true);
  }

  /** A graph of two or more vertices, one of them without neighbours, has no Hamiltonian cycle. */
  lemma NoCycleThroughIsolated(g: Graph, v: int)
    requires Valid(g) && |g.vertices| >= 2 && v in g.vertices && Neighbours(g, v) == []
    ensures forall c :: !HamiltonianCycle(g, c)
  {
    forall c | HamiltonianCycle(g, c)
      ensures false
    {
      var o := c[..|c| - 1];
      assert OnVertices(g, o) by {
        forall t | 0 <= t < |o|
          ensures o[t] in g.vertices
        {
          assert o[t] == c[t];
        }
      }
      Covering(g, o, v);
      var t :| 0 <= t < |o| && o[t] == v;
      assert c[t] == v;
      LinkedPair(g, c, t);
    }
  }

  /** A Hamiltonian path whose ends are adjacent closes into a Hamiltonian cycle. */
  lemma ClosedPath(g: Graph, p: seq<int>)
    requires Valid(g) && HamiltonianPath(g, p) && |p| >= 2 && (p[0], p[|p| - 1]) in g.weight
    ensures HamiltonianCycle(g, p + [p[0]])
  {
    EdgeBack(g, p[0], p[|p| - 1]);
    LinkedConcat(g, p, [p[0]]);
    var c := p + [p[0]];
    assert c[..|c| - 1] == p;
    assert OnVertices(g, c) by {
      forall t | 0 <= t < |c|
        ensures c[t] in g.vertices
      {
        if t < |p| {
          assert c[t] == p[t];
        }
      }
    }
  }

  // ---------------------------------------------------------------------------
  // `hybridHAM`, final and draft
  // ---------------------------------------------------------------------------

  /**
   * `hybridHAM(g, path)`, with the degree test in phase 1. `True` comes with a Hamiltonian path
   * whose ends are adjacent, so closing it gives a Hamiltonian cycle; `False` is answered only when
   * the graph has none. With fewer than two vertices phase 1 leaves the path empty and `path[0]`
   * raises IndexError (in phase 2 for one vertex, in phase 3 for none).
   */
  method HybridHam(g: Graph, draws: seq<Draw>) returns (r: Result<Run, Error>)
    requires Valid(g)
    ensures r.Failure? <==> |g.vertices| < 2
    ensures r.Failure? ==> r.error == IndexError
    ensures r.Success? ==> r.value.outcome != FellOff
    ensures r.Success? && r.value.outcome == Returned(true) ==>
      HamiltonianPath(g, r.value.path) && |r.value.path| >= 2 &&
      HamiltonianCycle(g, r.value.path + [r.value.path[0]])
    ensures r.Success? && r.value.outcome == Returned(false) ==> forall c :: !HamiltonianCycle(g, c)
  {
    var va := SortByDegree(g, g.vertices);
    var path := FirstPhase(g, va);
    if path == [] {
      return Failure(IndexError);
    }
    var rest, stop;
    path, rest, stop := SecondPhase(g, va, path, draws);
    if stop.Some? {
      if stop.value == Returned(false) {
        NoCycleThroughIsolated(g, path[0]);
      }
      return Success(Run(stop.value, path));
    }
    var outcome;
    path, outcome := ThirdPhase(g, path, rest);
    if outcome == Returned(true) {
      ClosedPath(g, path);
    }
    return Success(Run(outcome, path));
  }

  /**
   * The draft's `hybridHAM(g, tour)`: phases 1 and 2 only, on a local list (`tour` is never
   * written). It answers `False` only when the graph has no Hamiltonian cycle; otherwise, with
   * draws enough, it falls off the end, returning `None`, with a Hamiltonian path. On a graph
   * without vertices the empty path already has every vertex, so neither loop runs and it falls
   * off the end at once.
   */
  method DraftHybridHam(g: Graph, draws: seq<Draw>) returns (r: Run)
    requires Valid(g)
    ensures |g.vertices| == 0 ==> r == Run(FellOff, [])
    ensures r.outcome != Returned(true)
    ensures r.outcome == Returned(false) ==> forall c :: !HamiltonianCycle(g, c)
    ensures r.outcome == FellOff && |g.vertices| > 0 ==> HamiltonianPath(g, r.path)
  {
    if |g.vertices| == 0 {
      return Run(FellOff, []);
    }
    var va := SortByDegree(g, g.vertices);
    var path := DraftFirstPhase(g, va);
    var rest, stop;
    path, rest, stop := SecondPhase(g, va, path, draws);
    if stop.Some? {
      if stop.value == Returned(false) {
        NoCycleThroughIsolated(g, path[0]);
      }
      return Run(stop.value, path);
    }
    return Run(FellOff, path);
  }
}
