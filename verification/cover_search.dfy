/**
 * The greedy (k, C1, C2)-cover `search(T, k, c1, c2)` of project2/kc1c2_coverage.py, written
 * a second time, line for line, in project2/k-c1-c2_coverage.py.
 *
 * From the first item whose key is at least `c1`, the search follows the inorder successor
 * while the key stays in `[c1, c2]` and fewer than `k` in-range keys have been counted. Each
 * node met for the first time joins the solution together with all its in-range keys.
 */
module KCover {
  import opened Wrappers
  import opened Exceptions
  import opened ABTreeNodes
  import opened ABTreeNav
  import opened ABTreeSearch
  import opened ABTreeMapLayer
  import opened CoverPositions

  /**
   * The start of every cover search: `T.search(c1)`, moved on once by the corrected `after`
   * when its key is below `c1`. The result is the position of the first item whose key is at least `c1`, or
   * None when every key is below `c1`. On an empty tree `T.search` raises AttributeError.
   */
  method StartPosition<V>(t: ABTreeMap<V>, c1: int) returns (r: Result<Option<(seq<nat>, nat)>, Error>)
    requires t.Valid()
    ensures r.Failure? <==> t.size == 0
    ensures r.Failure? ==> r.error == AttributeError
    ensures r.Success? ==> t.root.Some? && Searchable(t.root.value) && SortedKeys(t.Items())
    ensures r == Success(None) <==> t.size > 0 && forall u :: 0 <= u < |t.Items()| ==> t.Items()[u].key < c1
    ensures r.Success? && r.value.Some? ==>
      && IsPosition(t.root.value, r.value.value)
      && GIndex(t.root.value, r.value.value.0, r.value.value.1) == Locate(t.Items(), c1).1
  {
    var follow := t.Search(c1);
    if follow.Failure? {
      return Failure(follow.error);
    }
    t.RootFacts();
    var root := t.root.value;
    var (p, i) := follow.value;
    ghost var items := t.Items();
    LocateSplits(items, c1);
    ghost var g := Locate(items, c1).1;
    ghost var gp := GIndex(root, p, i);
    if HasKey(items, c1) {
      assert gp == g by {
        assert items[g].key == c1 == items[gp].key;
      }
    }
    if NodeAt(root, p).elements[i].key < c1 {
      assert gp + 1 == g;
      PositionAfterIsNext(root, p, i);
      var next := PositionAfter(root, p, i).value;
      if next.None? {
        return Success(None);
      }
      return Success(next);
    }
    assert gp == g;
    return Success(Some((p, i)));
  }

  /** The inner `for j` loop: the number of keys of a node that lie in `[c1, c2]`. */
  method CountNode<V>(elements: seq<Item<V>>, c1: int, c2: int) returns (n: nat)
    ensures n == CountInRange(elements, c1, c2)
  {
    n := 0;
    for j := 0 to |elements|
      invariant n == CountInRange(elements[..j], c1, c2)
    {
      assert elements[..j + 1][..j] == elements[..j];
      if c1 <= elements[j].key <= c2 {
        n := n + 1;
      }
    }
    assert elements[..|elements|] == elements;
  }

  /**
   * The state of the walk once the items `g0 .. g - 1` have been visited: all of them were in
   * range, each belongs to a node of the solution, and `found` counts the in-range keys of
   * those distinct nodes.
   */
  ghost predicate Walked<V>(root: Node<V>, c1: int, c2: int, g0: nat, sol: seq<seq<nat>>, found: int,
                            seen: set<(seq<nat>, nat)>, g: nat)
  {
    && g0 <= g <= |Inorder(root)|
    && Cover(root, sol, c1, c2)
    && found == Covered(root, sol, c1, c2)
    && seen <= Counted(root, sol, c1, c2)
    && |seen| == g - g0
    && (forall x :: x in seen ==> IsPosition(root, x) && g0 <= GIndex(root, x.0, x.1) < g)
    && (forall u :: g0 <= u < g ==> InRange(c1, c2, Inorder(root)[u].key))
  }

  /** The last node of `sol` is the first to bring the count to `k`. */
  ghost predicate StopsAt<V>(root: Node<V>, c1: int, c2: int, sol: seq<seq<nat>>, k: int)
  {
    |sol| > 0 && AllPaths(root, sol) ==> Covered(root, sol[..|sol| - 1], c1, c2) < k
  }

  /** The walk moves past item `g`, held at `(p, i)` by a node of the new solution `sol'`. */
  lemma WalkedStep<V>(root: Node<V>, c1: int, c2: int, g0: nat, sol: seq<seq<nat>>, found: int,
                      seen: set<(seq<nat>, nat)>, g: nat, p: seq<nat>, i: nat, sol': seq<seq<nat>>, found': int)
    requires Walked(root, c1, c2, g0, sol, found, seen, g)
    requires IsPosition(root, (p, i)) && GIndex(root, p, i) == g && g < |Inorder(root)|
    requires InRange(c1, c2, Inorder(root)[g].key)
    requires Cover(root, sol', c1, c2) && found' == Covered(root, sol', c1, c2)
    requires Counted(root, sol, c1, c2) <= Counted(root, sol', c1, c2) && (p, i) in Counted(root, sol', c1, c2)
    ensures Walked(root, c1, c2, g0, sol', found', seen + {(p, i)}, g + 1)
  {
    SeenGrows(root, g0, seen, g, p, i);
    RangeGrows(root, c1, c2, g0, g);
  }

  /** Items `g0 .. g` are in range once item `g` is. */
  lemma RangeGrows<V>(root: Node<V>, c1: int, c2: int, g0: nat, g: nat)
    requires g < |Inorder(root)|
    requires forall u :: g0 <= u < g ==> InRange(c1, c2, Inorder(root)[u].key)
    requires InRange(c1, c2, Inorder(root)[g].key)
    ensures forall u :: g0 <= u < g + 1 ==> InRange(c1, c2, Inorder(root)[u].key)
  {
  }

  /** The item at `g` is new to the positions seen at `g0 .. g - 1`. */
  lemma SeenGrows<V>(root: Node<V>, g0: nat, seen: set<(seq<nat>, nat)>, g: nat, p: seq<nat>, i: nat)
    requires forall x :: x in seen ==> IsPosition(root, x) && g0 <= GIndex(root, x.0, x.1) < g
    requires g0 <= g && IsPosition(root, (p, i)) && GIndex(root, p, i) == g
    ensures |seen + {(p, i)}| == |seen| + 1
    ensures forall x :: x in seen + {(p, i)} ==> IsPosition(root, x) && g0 <= GIndex(root, x.0, x.1) < g + 1
  {
    assert (p, i) !in seen;
    assert |seen + {(p, i)}| == |seen| + 1;
    forall x | x in seen + {(p, i)}
      ensures IsPosition(root, x) && g0 <= GIndex(root, x.0, x.1) < g + 1
    {
      if x != (p, i) {
        assert x in seen;
      }
    }
  }

  /** A node met for the first time: the solution stays a cover and gains the node's count and row. */
  lemma VisitNew<V>(root: Node<V>, c1: int, c2: int, sol: seq<seq<nat>>, p: seq<nat>, i: nat)
    requires Cover(root, sol, c1, c2) && IsPosition(root, (p, i)) && InRange(c1, c2, KeyAt(root, (p, i)))
    requires p !in sol
    ensures Cover(root, sol + [p], c1, c2)
    ensures Covered(root, sol + [p], c1, c2) == Covered(root, sol, c1, c2) + NodeCount(root, p, c1, c2)
    ensures Counted(root, sol, c1, c2) <= Counted(root, sol + [p], c1, c2)
    ensures (p, i) in Counted(root, sol + [p], c1, c2)
  {
    var sol' := sol + [p];
    CountedGrows(root, sol, p, c1, c2);
    CountPositive(NodeAt(root, p).elements, c1, c2);
    assert sol'[..|sol'| - 1] == sol;
    assert i in InRangeIndices(NodeAt(root, p).elements, c1, c2);
    assert (p, i) in Row(root, p, c1, c2);
  }

  /** One round of the loop before the move to the successor: `p` joins the solution unless it is there. */
  method Visit<V>(root: Node<V>, k: int, c1: int, c2: int, ghost g0: nat, sol: seq<seq<nat>>, found: int,
                  ghost seen: set<(seq<nat>, nat)>, p: seq<nat>, i: nat)
    returns (sol': seq<seq<nat>>, found': int, ghost seen': set<(seq<nat>, nat)>)
    requires Searchable(root) && IsPosition(root, (p, i)) && InRange(c1, c2, KeyAt(root, (p, i)))
    requires Walked(root, c1, c2, g0, sol, found, seen, GIndex(root, p, i))
    requires found < k && StopsAt(root, c1, c2, sol, k)
    ensures sol' == if p in sol then sol else sol + [p]
    ensures found' == found + (if p in sol then 0 else NodeCount(root, p, c1, c2))
    ensures Walked(root, c1, c2, g0, sol', found', seen', GIndex(root, p, i) + 1)
    ensures StopsAt(root, c1, c2, sol', k)
  {
    sol', found' := sol, found;
    if p !in sol {
      sol' := sol + [p];
      var n := CountNode(NodeAt(root, p).elements, c1, c2);
      found' := found + n;
      VisitFresh(root, k, c1, c2, g0, sol, found, seen, p, i);
    } else {
      VisitAgain(root, c1, c2, g0, sol, found, seen, p, i);
    }
    seen' := seen + {(p, i)};
  }

  /** The walk meets a node for the first time: the node joins the solution with its count. */
  lemma VisitFresh<V>(root: Node<V>, k: int, c1: int, c2: int, g0: nat, sol: seq<seq<nat>>, found: int,
                      seen: set<(seq<nat>, nat)>, p: seq<nat>, i: nat)
    requires Searchable(root) && IsPosition(root, (p, i)) && InRange(c1, c2, KeyAt(root, (p, i)))
    requires Walked(root, c1, c2, g0, sol, found, seen, GIndex(root, p, i))
    requires found < k && p !in sol
    ensures Walked(root, c1, c2, g0, sol + [p], found + NodeCount(root, p, c1, c2), seen + {(p, i)}, GIndex(root, p, i) + 1)
    ensures StopsAt(root, c1, c2, sol + [p], k)
  {
    SearchableAlong(root, p);
    GIndexAt(root, p, i);
    VisitNew(root, c1, c2, sol, p, i);
    var sol' := sol + [p];
    assert sol'[..|sol'| - 1] == sol;
    WalkedStep(root, c1, c2, g0, sol, found, seen, GIndex(root, p, i), p, i, sol', found + NodeCount(root, p, c1, c2));
  }

  /** The walk meets a node it already holds: only the visited item is new. */
  lemma VisitAgain<V>(root: Node<V>, c1: int, c2: int, g0: nat, sol: seq<seq<nat>>, found: int,
                      seen: set<(seq<nat>, nat)>, p: seq<nat>, i: nat)
    requires Searchable(root) && IsPosition(root, (p, i)) && InRange(c1, c2, KeyAt(root, (p, i)))
    requires Walked(root, c1, c2, g0, sol, found, seen, GIndex(root, p, i))
    requires p in sol
    ensures Walked(root, c1, c2, g0, sol, found, seen + {(p, i)}, GIndex(root, p, i) + 1)
  {
    SearchableAlong(root, p);
    GIndexAt(root, p, i);
    assert (p, i) in Counted(root, sol, c1, c2);
    WalkedStep(root, c1, c2, g0, sol, found, seen, GIndex(root, p, i), p, i, sol, found);
  }

  /** With every key below `c1` no key is in range. */
  lemma NoneInRange<V>(s: seq<Item<V>>, c1: int, c2: int)
    requires forall u :: 0 <= u < |s| ==> s[u].key < c1
    ensures CountInRange(s, c1, c2) == 0
  {
    CountIsIndices(s, c1, c2);
    assert InRangeIndices(s, c1, c2) == {};
  }

  /** The in-range items of a sorted list are those from the first key `>= c1` up to a key beyond `c2`. */
  lemma InRangeSpan<V>(s: seq<Item<V>>, c1: int, c2: int, g0: nat, g: nat)
    requires SortedKeys(s) && g0 == Locate(s, c1).1 && g0 <= g <= |s|
    requires forall u :: g0 <= u < g ==> InRange(c1, c2, s[u].key)
    requires g < |s| ==> !InRange(c1, c2, s[g].key)
    ensures InRangeIndices(s, c1, c2) == Span(g0, g)
  {
    LocateSplits(s, c1);
    forall u | 0 <= u < |s|
      ensures u in InRangeIndices(s, c1, c2) <==> u in Span(g0, g)
    {
      if g <= u {
        assert c2 < s[g].key <= s[u].key;
      }
    }
  }

  /** The positions visited belong to the solution, so there are at most `found` of them. */
  lemma SeenBound<V>(root: Node<V>, c1: int, c2: int, sol: seq<seq<nat>>, seen: set<(seq<nat>, nat)>)
    requires Cover(root, sol, c1, c2) && seen <= Counted(root, sol, c1, c2)
    ensures |seen| <= Covered(root, sol, c1, c2)
  {
    var all := Counted(root, sol, c1, c2);
    CountedSize(root, sol, c1, c2);
    assert all == seen + (all - seen);
    assert seen * (all - seen) == {};
  }

  /** When the walk stops at an item beyond `c2` or at the end, it has counted every in-range key. */
  lemma WalkComplete<V>(root: Node<V>, c1: int, c2: int, g0: nat, sol: seq<seq<nat>>, found: int,
                        seen: set<(seq<nat>, nat)>, g: nat)
    requires SortedKeys(Inorder(root)) && g0 == Locate(Inorder(root), c1).1
    requires Walked(root, c1, c2, g0, sol, found, seen, g)
    requires g < |Inorder(root)| ==> !InRange(c1, c2, Inorder(root)[g].key)
    ensures CountInRange(Inorder(root), c1, c2) <= found
  {
    CountIsIndices(Inorder(root), c1, c2);
    InRangeSpan(Inorder(root), c1, c2, g0, g);
    SeenBound(root, c1, c2, sol, seen);
  }

  /**
   * The loop of `search` (lines 56-67) from the position `(p, i)`: it stops when `k` in-range
   * keys are counted, at a key outside `[c1, c2]`, or after the last item. It counts a node the
   * first time it meets one of its keys, and the last node added is the one that reaches `k`.
   */
  method CoverWalk<V>(root: Node<V>, k: int, c1: int, c2: int, p0: seq<nat>, i0: nat)
    returns (solution: seq<seq<nat>>, found: int, ghost seen: set<(seq<nat>, nat)>, ghost g: nat)
    requires Searchable(root) && IsPosition(root, (p0, i0))
    ensures Walked(root, c1, c2, GIndex(root, p0, i0), solution, found, seen, g)
    ensures found < k ==> g == |Inorder(root)| || !InRange(c1, c2, Inorder(root)[g].key)
    ensures StopsAt(root, c1, c2, solution, k)
  {
    var p, i := p0, i0;
    ghost var g0 := GIndex(root, p, i);
    SearchableAlong(root, p);
    GIndexAt(root, p, i);
    solution, found, seen, g := [], 0, {}, g0;
    while found < k && InRange(c1, c2, KeyAt(root, (p, i)))
      invariant IsPosition(root, (p, i)) && g == GIndex(root, p, i)
      invariant Walked(root, c1, c2, g0, solution, found, seen, g)
      invariant StopsAt(root, c1, c2, solution, k)
      decreases |Inorder(root)| - g
    {
      solution, found, seen := Visit(root, k, c1, c2, g0, solution, found, seen, p, i);
      PositionAfterIsNext(root, p, i);
      var follow := PositionAfter(root, p, i).value;
      g := g + 1;
      if follow.None? {
        break;
      }
      p, i := follow.value.0, follow.value.1;
    }
    SearchableAlong(root, p);
    GIndexAt(root, p, i);
  }

  /**
   * `search(T, k, c1, c2)`. On an empty tree AttributeError. The answer is a list of distinct
   * nodes, each holding a key in `[c1, c2]`, whose in-range keys number at least `k`, so the tree
   * holds at least `k` of them; the search stops at the first node that reaches `k`. It answers
   * None exactly when the tree holds fewer than `k` in-range keys, or when `k <= 0` and every key
   * is below `c1`.
   */
  method Search<V>(t: ABTreeMap<V>, k: int, c1: int, c2: int) returns (r: Result<Option<seq<seq<nat>>>, Error>)
    requires t.Valid()
    ensures r.Failure? <==> t.size == 0
    ensures r.Failure? ==> r.error == AttributeError
    ensures r.Success? ==>
      (r.value.None? <==>
         CountInRange(t.Items(), c1, c2) < k || (k <= 0 && forall u :: 0 <= u < |t.Items()| ==> t.Items()[u].key < c1))
    ensures r.Success? && r.value.Some? ==>
      && t.root.Some? && Cover(t.root.value, r.value.value, c1, c2)
      && Covered(t.root.value, r.value.value, c1, c2) >= k
      && CountInRange(t.Items(), c1, c2) >= k
      && (|r.value.value| > 0 ==> Covered(t.root.value, r.value.value[..|r.value.value| - 1], c1, c2) < k)
  {
    var start := StartPosition(t, c1);
    if start.Failure? {
      return Failure(start.error);
    }
    if start.value.None? {
      NoneInRange(t.Items(), c1, c2);
      return Success(None);
    }
    var root := t.root.value;
    var (p, i) := start.value.value;
    var solution, found, seen, g := CoverWalk(root, k, c1, c2, p, i);
    CoveredBound(root, solution, c1, c2);
    if found >= k {
      return Success(Some(solution));
    }
    WalkComplete(root, c1, c2, GIndex(root, p, i), solution, found, seen, g);
    return Success(None);
  }
}
