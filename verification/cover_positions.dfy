/**
 * Counting facts shared by the (k, C1, C2)-cover searches (project2/kc1c2_coverage.py,
 * project2/k-c1-c2_coverage.py, project2/kc1c2_experimental_valutation.py).
 *
 * A cover is a list of tree nodes; a node is named by its path from the root and a
 * position by a path and an element index. The key facts: two different positions have
 * different places in the inorder visit, so the in-range keys of distinct nodes are
 * distinct in-range items of the tree.
 */
module CoverPositions {
  import opened ABTreeNodes

  /** `c1 <= key <= c2`, the test both searches apply to every key. */
  predicate InRange(c1: int, c2: int, key: int)
  {
    c1 <= key && key <= c2
  }

  /** The number of items of `s` whose key lies in `[c1, c2]`: what the inner `for j` loop counts. */
  function CountInRange<V>(s: seq<Item<V>>, c1: int, c2: int): (r: nat)
    ensures r <= |s|
  {
    if |s| == 0 then 0
    else CountInRange(s[..|s| - 1], c1, c2) + (if InRange(c1, c2, s[|s| - 1].key) then 1 else 0)
  }

  /** The indices of `s` holding an in-range key. */
  ghost function InRangeIndices<V>(s: seq<Item<V>>, c1: int, c2: int): set<nat>
  {
    set t: nat | t < |s| && InRange(c1, c2, s[t].key)
  }

  /** The count is the number of in-range indices. */
  lemma {:induction false} CountIsIndices<V>(s: seq<Item<V>>, c1: int, c2: int)
    ensures CountInRange(s, c1, c2) == |InRangeIndices(s, c1, c2)|
    decreases |s|
  {
    if |s| > 0 {
      var s' := s[..|s| - 1];
      CountIsIndices(s', c1, c2);
      var last: nat := |s| - 1;
      assert InRangeIndices(s', c1, c2) == InRangeIndices(s, c1, c2) - {last};
      if InRange(c1, c2, s[last].key) {
        assert InRangeIndices(s, c1, c2) == InRangeIndices(s', c1, c2) + {last};
      } else {
        assert InRangeIndices(s, c1, c2) == InRangeIndices(s', c1, c2);
      }
    }
  }

  /** A node counts something exactly when one of its keys is in range. */
  lemma CountPositive<V>(s: seq<Item<V>>, c1: int, c2: int)
    ensures CountInRange(s, c1, c2) > 0 <==> exists t :: 0 <= t < |s| && InRange(c1, c2, s[t].key)
  {
    CountIsIndices(s, c1, c2);
    if t :| 0 <= t < |s| && InRange(c1, c2, s[t].key) {
      assert t in InRangeIndices(s, c1, c2);
    }
  }

  /** The indices `a, ..., b - 1`. */
  ghost function Span(a: nat, b: nat): (r: set<nat>)
    ensures forall t :: t in r <==> a <= t < b
    ensures |r| == if a <= b then b - a else 0
    decreases b
  {
    if b <= a then {} else Span(a, b - 1) + {b - 1}
  }

  // ---------------------------------------------------------------------------
  // Positions
  // ---------------------------------------------------------------------------

  /** `(path, i)` names element `i` of the node at `path`. */
  predicate IsPosition<V>(root: Node<V>, x: (seq<nat>, nat))
  {
    ValidPath(root, x.0) && x.1 < |NodeAt(root, x.0).elements|
  }

  /** `p.key(i)`. */
  function KeyAt<V>(root: Node<V>, x: (seq<nat>, nat)): int
    requires IsPosition(root, x)
  {
    NodeAt(root, x.0).elements[x.1].key
  }

  /** The in-range keys of the node at `p`: what the search adds to `currency_found` for it. */
  function NodeCount<V>(root: Node<V>, p: seq<nat>, c1: int, c2: int): nat
    requires ValidPath(root, p)
  {
    CountInRange(NodeAt(root, p).elements, c1, c2)
  }

  predicate NoRepeats<T(==)>(s: seq<T>)
  {
    forall a, b :: 0 <= a < b < |s| ==> s[a] != s[b]
  }

  ghost predicate AllPaths<V>(root: Node<V>, sol: seq<seq<nat>>)
  {
    forall j :: 0 <= j < |sol| ==> ValidPath(root, sol[j])
  }

  /** The in-range keys counted over the nodes of `sol`, a node as often as it occurs. */
  ghost function Covered<V>(root: Node<V>, sol: seq<seq<nat>>, c1: int, c2: int): nat
    requires AllPaths(root, sol)
  {
    if |sol| == 0 then 0
    else Covered(root, sol[..|sol| - 1], c1, c2) + NodeCount(root, sol[|sol| - 1], c1, c2)
  }

  /** A cover candidate: distinct nodes of the tree, each holding a key in `[c1, c2]`. */
  ghost predicate Cover<V>(root: Node<V>, sol: seq<seq<nat>>, c1: int, c2: int)
  {
    && NoRepeats(sol)
    && AllPaths(root, sol)
    && forall j :: 0 <= j < |sol| ==> NodeCount(root, sol[j], c1, c2) > 0
  }

  /** The in-range positions of the nodes of `sol`. */
  ghost function Counted<V>(root: Node<V>, sol: seq<seq<nat>>, c1: int, c2: int): set<(seq<nat>, nat)>
  {
    set q: seq<nat>, i: nat | q in sol && ValidPath(root, q) && i < |NodeAt(root, q).elements|
                               && InRange(c1, c2, NodeAt(root, q).elements[i].key) :: (q, i)
  }

  /** The positions `(q, i)` for `i` in `X`. */
  ghost function Pairs(q: seq<nat>, X: set<nat>): set<(seq<nat>, nat)>
  {
    set i | i in X :: (q, i)
  }

  /** The in-range positions of the single node at `q`. */
  ghost function Row<V>(root: Node<V>, q: seq<nat>, c1: int, c2: int): set<(seq<nat>, nat)>
    requires ValidPath(root, q)
  {
    Pairs(q, InRangeIndices(NodeAt(root, q).elements, c1, c2))
  }

  lemma {:induction false} PairsSize(q: seq<nat>, X: set<nat>)
    ensures |Pairs(q, X)| == |X|
    decreases |X|
  {
    if X != {} {
      var x :| x in X;
      PairsSize(q, X - {x});
      assert Pairs(q, X) == Pairs(q, X - {x}) + {(q, x)};
      assert (q, x) !in Pairs(q, X - {x});
    }
  }

  lemma RowSize<V>(root: Node<V>, q: seq<nat>, c1: int, c2: int)
    requires ValidPath(root, q)
    ensures |Row(root, q, c1, c2)| == NodeCount(root, q, c1, c2)
  {
    PairsSize(q, InRangeIndices(NodeAt(root, q).elements, c1, c2));
    CountIsIndices(NodeAt(root, q).elements, c1, c2);
  }

  /** Over distinct nodes the count is the number of in-range positions they hold. */
  lemma {:induction false} CountedSize<V>(root: Node<V>, sol: seq<seq<nat>>, c1: int, c2: int)
    requires NoRepeats(sol) && AllPaths(root, sol)
    ensures |Counted(root, sol, c1, c2)| == Covered(root, sol, c1, c2)
    decreases |sol|
  {
    if |sol| > 0 {
      var s', q := sol[..|sol| - 1], sol[|sol| - 1];
      assert sol == s' + [q];
      CountedSize(root, s', c1, c2);
      RowSize(root, q, c1, c2);
      assert q !in s';
      assert Counted(root, sol, c1, c2) == Counted(root, s', c1, c2) + Row(root, q, c1, c2);
      assert Counted(root, s', c1, c2) * Row(root, q, c1, c2) == {};
    }
  }

  /** Adding a node not yet in `sol` adds its whole row. */
  lemma CountedGrows<V>(root: Node<V>, sol: seq<seq<nat>>, q: seq<nat>, c1: int, c2: int)
    requires ValidPath(root, q)
    ensures Counted(root, sol + [q], c1, c2) == Counted(root, sol, c1, c2) + Row(root, q, c1, c2)
  {
  }

  // ---------------------------------------------------------------------------
  // Different positions have different inorder indices
  // ---------------------------------------------------------------------------

  /** The items of children `c .. d - 1` and their separators come between child `c` and child `d`. */
  lemma {:induction false} InterleavedGrows<V>(es: seq<Item<V>>, cs: seq<Node<V>>, c: nat, d: nat)
    requires |cs| == |es| + 1 && c < d < |cs|
    ensures |Interleaved(es, cs[..c])| + |Inorder(cs[c])| + 1 <= |Interleaved(es, cs[..d])|
    decreases d
  {
    InterleavedStep(es, cs, d);
    if c + 1 < d {
      InterleavedGrows(es, cs, c, d - 1);
    }
  }

  /** The index of a position below child `c` lies within the block of child `c`. */
  lemma ChildBlock<V>(n: Node<V>, p: seq<nat>, i: nat)
    requires Searchable(n) && p != [] && ValidPath(n, p) && i < |NodeAt(n, p).elements|
    ensures |n.children| == |n.elements| + 1 && p[0] < |n.children|
    ensures var c := n.children[p[0]];
      && ValidPath(c, p[1..]) && NodeAt(n, p) == NodeAt(c, p[1..])
      && GIndex(n, p, i) == |Interleaved(n.elements, n.children[..p[0]])| + GIndex(c, p[1..], i)
      && GIndex(c, p[1..], i) < |Inorder(c)|
  {
    var c := n.children[p[0]];
    assert Searchable(c);
    SearchableAlong(c, p[1..]);
    GIndexAt(c, p[1..], i);
  }

  /** Distinct positions of a searchable tree have distinct inorder indices. */
  lemma {:induction false} GIndexInjective<V>(n: Node<V>, x: (seq<nat>, nat), y: (seq<nat>, nat))
    requires Searchable(n) && IsPosition(n, x) && IsPosition(n, y)
    requires GIndex(n, x.0, x.1) == GIndex(n, y.0, y.1)
    ensures x == y
    decreases n
  {
    var (p, i) := x;
    var (q, j) := y;
    if IsLeaf(n) {
      return;
    }
    var es, cs := n.elements, n.children;
    if p == [] && q == [] {
      if i < j {
        ElementIndexNext(n, i);
        ElementIndexNext(n, j);
        InterleavedGrows(es, cs, i + 1, j + 1);
      } else if j < i {
        ElementIndexNext(n, i);
        ElementIndexNext(n, j);
        InterleavedGrows(es, cs, j + 1, i + 1);
      }
    } else if p == [] {
      ChildBlock(n, q, j);
      ElementIndexNext(n, i);
      ElementAbove(es, cs, i, q[0]);
    } else if q == [] {
      ChildBlock(n, p, i);
      ElementIndexNext(n, j);
      ElementAbove(es, cs, j, p[0]);
    } else {
      ChildBlock(n, p, i);
      ChildBlock(n, q, j);
      if p[0] < q[0] {
        InterleavedGrows(es, cs, p[0], q[0]);
      } else if q[0] < p[0] {
        InterleavedGrows(es, cs, q[0], p[0]);
      } else {
        GIndexInjective(cs[p[0]], (p[1..], i), (q[1..], j));
        assert p == [p[0]] + p[1..] && q == [q[0]] + q[1..];
      }
    }
  }

  /** Element `i` of an internal node lies outside the block of child `c`. */
  lemma ElementAbove<V>(es: seq<Item<V>>, cs: seq<Node<V>>, i: nat, c: nat)
    requires |cs| == |es| + 1 && i < |es| && c < |cs|
    ensures var e := |Interleaved(es, cs[..i + 1])| - 1;
      e < |Interleaved(es, cs[..c])| || |Interleaved(es, cs[..c])| + |Inorder(cs[c])| <= e
  {
    InterleavedStep(es, cs, i + 1);
    if c < i {
      InterleavedGrows(es, cs, c, i);
    } else if i + 1 < c {
      InterleavedGrows(es, cs, i + 1, c);
    }
  }

  /** Positions with distinct places in a set of indices are at most as many as the indices. */
  lemma {:induction false} PositionsBound<V>(root: Node<V>, X: set<(seq<nat>, nat)>, Y: set<nat>)
    requires Searchable(root)
    requires forall x :: x in X ==> IsPosition(root, x) && GIndex(root, x.0, x.1) in Y
    ensures |X| <= |Y|
    decreases |X|
  {
    if X != {} {
      var x :| x in X;
      var gx := GIndex(root, x.0, x.1);
      forall y | y in X - {x}
        ensures GIndex(root, y.0, y.1) in Y - {gx}
      {
        if GIndex(root, y.0, y.1) == gx {
          GIndexInjective(root, x, y);
        }
      }
      PositionsBound(root, X - {x}, Y - {gx});
    }
  }

  /**
   * The nodes of a cover hold at most as many in-range keys as the whole tree: a greedy
   * answer that counts `k` keys proves that the tree has `k` keys in `[c1, c2]`.
   */
  lemma CoveredBound<V>(root: Node<V>, sol: seq<seq<nat>>, c1: int, c2: int)
    requires Searchable(root) && NoRepeats(sol) && AllPaths(root, sol)
    ensures Covered(root, sol, c1, c2) <= CountInRange(Inorder(root), c1, c2)
  {
    CountedSize(root, sol, c1, c2);
    CountIsIndices(Inorder(root), c1, c2);
    forall x | x in Counted(root, sol, c1, c2)
      ensures IsPosition(root, x) && GIndex(root, x.0, x.1) in InRangeIndices(Inorder(root), c1, c2)
    {
      SearchableAlong(root, x.0);
      GIndexAt(root, x.0, x.1);
    }
    PositionsBound(root, Counted(root, sol, c1, c2), InRangeIndices(Inorder(root), c1, c2));
  }
}
