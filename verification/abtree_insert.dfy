/**
 * Insertion into the (a,b)-tree (project1/abtree/abtree.py, `_add_element` and `_rebalance_insert`).
 *
 * The item goes into a leaf. A node that reaches `b` elements is split around its median:
 * the node keeps the part before the median, a new right node takes the part after it, and
 * the median moves into the parent (or into a new root). The split then re-examines the parent.
 * The upward walk along parent links is the return path of the recursion on the path.
 */
module ABTreeInsert {
  import opened Wrappers
  import opened ABTreeNodes

  // ---------------------------------------------------------------------------
  // The `bisect` helpers the source calls, on item keys
  // ---------------------------------------------------------------------------

  /** `bisect.bisect_right(s, x)` restricted to `s[lo..hi]`: binary search for the first key above `k`. */
  function BisectRight<V>(s: seq<Item<V>>, k: int, lo: nat, hi: nat): (r: nat)
    requires lo <= hi <= |s|
    ensures lo <= r <= hi
    decreases hi - lo
  {
    if lo < hi then
      var mid := (lo + hi) / 2;
      if k < s[mid].key then BisectRight(s, k, lo, mid) else BisectRight(s, k, mid + 1, hi)
    else lo
  }

  /** `bisect.bisect_left(s, x)` restricted to `s[lo..hi]`: binary search for the first key not below `k`. */
  function BisectLeft<V>(s: seq<Item<V>>, k: int, lo: nat, hi: nat): (r: nat)
    requires lo <= hi <= |s|
    ensures lo <= r <= hi
    decreases hi - lo
  {
    if lo < hi then
      var mid := (lo + hi) / 2;
      if s[mid].key < k then BisectLeft(s, k, mid + 1, hi) else BisectLeft(s, k, lo, mid)
    else lo
  }

  /** On a sorted list, `bisect_right` separates the keys up to `k` from the keys above it. */
  lemma {:induction false} BisectRightSplits<V>(s: seq<Item<V>>, k: int, lo: nat, hi: nat)
    requires lo <= hi <= |s| && SortedKeys(s)
    requires forall t :: 0 <= t < lo ==> s[t].key <= k
    requires forall t :: hi <= t < |s| ==> k < s[t].key
    ensures forall t :: 0 <= t < BisectRight(s, k, lo, hi) ==> s[t].key <= k
    ensures forall t :: BisectRight(s, k, lo, hi) <= t < |s| ==> k < s[t].key
    decreases hi - lo
  {
    if lo < hi {
      var mid := (lo + hi) / 2;
      if k < s[mid].key {
        BisectRightSplits(s, k, lo, mid);
      } else {
        BisectRightSplits(s, k, mid + 1, hi);
      }
    }
  }

  /** On a sorted list, `bisect_left` separates the keys below `k` from the keys from `k` on. */
  lemma {:induction false} BisectLeftSplits<V>(s: seq<Item<V>>, k: int, lo: nat, hi: nat)
    requires lo <= hi <= |s| && SortedKeys(s)
    requires forall t :: 0 <= t < lo ==> s[t].key < k
    requires forall t :: hi <= t < |s| ==> k <= s[t].key
    ensures forall t :: 0 <= t < BisectLeft(s, k, lo, hi) ==> s[t].key < k
    ensures forall t :: BisectLeft(s, k, lo, hi) <= t < |s| ==> k <= s[t].key
    decreases hi - lo
  {
    if lo < hi {
      var mid := (lo + hi) / 2;
      if s[mid].key < k {
        BisectLeftSplits(s, k, mid + 1, hi);
      } else {
        BisectLeftSplits(s, k, lo, mid);
      }
    }
  }

  /** `bisect.insort(s, x)`: `x` inserted after every item whose key is not above its own. */
  function Insort<V>(s: seq<Item<V>>, x: Item<V>): seq<Item<V>>
  {
    ListInsert(s, BisectRight(s, x.key, 0, |s|), x)
  }

  /** `_index` (abtree.py:333-339): the leftmost position holding the key of `x`; the source raises ValueError on None. */
  function Index<V>(s: seq<Item<V>>, x: Item<V>): Option<nat>
  {
    var i := BisectLeft(s, x.key, 0, |s|);
    if i != |s| && s[i].key == x.key then Some(i) else None
  }

  /** In a sorted list `insort` puts `x` exactly between the smaller and the larger keys. */
  lemma InsortPlaces<V>(s: seq<Item<V>>, x: Item<V>, j: nat)
    requires SortedKeys(s) && j <= |s|
    requires forall t :: 0 <= t < j ==> s[t].key < x.key
    requires forall t :: j <= t < |s| ==> x.key < s[t].key
    ensures Insort(s, x) == ListInsert(s, j, x)
    ensures SortedKeys(Insort(s, x))
  {
    BisectRightSplits(s, x.key, 0, |s|);
    var ins := ListInsert(s, j, x);
    forall u, v | 0 <= u < v < |ins| ensures ins[u].key < ins[v].key {
      if v < j {
      } else if v == j {
      } else if u < j {
        assert ins[v] == s[v - 1];
      } else if u == j {
        assert ins[v] == s[v - 1];
      } else {
        assert ins[u] == s[u - 1] && ins[v] == s[v - 1];
      }
    }
  }

  /** On a sorted list `_index` finds the key exactly when it is present, and then its position. */
  lemma IndexFinds<V>(s: seq<Item<V>>, x: Item<V>)
    requires SortedKeys(s)
    ensures Index(s, x).Some? <==> exists t :: 0 <= t < |s| && s[t].key == x.key
    ensures Index(s, x).Some? ==> Index(s, x).value < |s| && s[Index(s, x).value].key == x.key
  {
    BisectLeftSplits(s, x.key, 0, |s|);
    var i := BisectLeft(s, x.key, 0, |s|);
  }

  // ---------------------------------------------------------------------------
  // Split (abtree.py:209-215)
  // ---------------------------------------------------------------------------

  /** The node cut down to the part before its median, the median, and the new right node. */
  function Split<V>(c: Node<V>): (Node<V>, Item<V>, Node<V>)
    requires |c.elements| > 0
  {
    var m := |c.elements| / 2;
    (Node(Take(c.elements, m), Take(c.children, m + 1)),
     c.elements[m],
     Node(Drop(c.elements, m + 1), Drop(c.children, m + 1)))
  }

  /** Splitting leaves the inorder visit unchanged and keeps both halves shaped like the node. */
  lemma SplitInorder<V>(c: Node<V>)
    requires |c.elements| > 0 && Shaped(c)
    ensures var (left, median, right) := Split(c);
      && Inorder(c) == Inorder(left) + [median] + Inorder(right)
      && Shaped(left) && Shaped(right)
      && IsLeaf(left) == IsLeaf(c) && IsLeaf(right) == IsLeaf(c)
  {
    var es, cs := c.elements, c.children;
    var m := |es| / 2;
    assert es == es[..m] + [es[m]] + es[m + 1..];
    if !IsLeaf(c) {
      assert cs == cs[..m + 1] + cs[m + 1..];
      WovenConcat(es[..m], cs[..m + 1], es[m], es[m + 1..], cs[m + 1..]);
    }
  }

  /**
   * Given the constructor bound `2 <= a <= (b + 1) / 2`, both halves of a node holding `b`
   * elements hold between `a - 1` and `b - 1` elements, and their subtrees stay balanced.
   */
  lemma SplitFits<V>(c: Node<V>, h: nat, a: int, b: int)
    requires 2 <= a <= (b + 1) / 2
    requires Tree(c, h, b, b, a, b)
    ensures var (left, median, right) := Split(c);
      Tree(left, h, a - 1, b - 1, a, b) && Tree(right, h, a - 1, b - 1, a, b)
  {
    var (left, median, right) := Split(c);
    var m := |c.elements| / 2;
    assert |left.elements| == m && |right.elements| == b - m - 1;
    if h > 0 {
      assert forall t :: 0 <= t < |left.children| ==> left.children[t] == c.children[t];
      assert forall t :: 0 <= t < |right.children| ==> right.children[t] == c.children[m + 1 + t];
    }
  }

  // ---------------------------------------------------------------------------
  // Where the median lands in the parent
  // ---------------------------------------------------------------------------

  /** In a sorted internal node, the items below child `j` lie strictly between elements `j - 1` and `j`. */
  lemma ChildBetween<V>(es: seq<Item<V>>, cs: seq<Node<V>>, j: nat, x: Item<V>)
    requires |cs| == |es| + 1 && j < |cs| && SortedKeys(Woven(es, cs)) && x in Inorder(cs[j])
    ensures j > 0 ==> es[j - 1].key < x.key
    ensures j < |es| ==> x.key < es[j].key
  {
    if j < |es| {
      ChildBelowNext(es, cs, j, x);
    }
    if j > 0 {
      ChildAbovePrev(es, cs, j, x);
    }
  }

  lemma ChildBelowNext<V>(es: seq<Item<V>>, cs: seq<Node<V>>, j: nat, x: Item<V>)
    requires |cs| == |es| + 1 && j < |es| && SortedKeys(Woven(es, cs)) && x in Inorder(cs[j])
    ensures x.key < es[j].key
  {
    var inner := Inorder(cs[j]);
    var v :| 0 <= v < |inner| && inner[v] == x;
    WovenAt(es, cs, j);
    SuffixShift(es, cs, j);
    SortedBeforeNext(Woven(es, cs), Interleaved(es, cs[..j]), inner, SuffixItems(es, cs, j), v);
  }

  lemma ChildAbovePrev<V>(es: seq<Item<V>>, cs: seq<Node<V>>, j: nat, x: Item<V>)
    requires |cs| == |es| + 1 && 0 < j < |cs| && SortedKeys(Woven(es, cs)) && x in Inorder(cs[j])
    ensures es[j - 1].key < x.key
  {
    var inner := Inorder(cs[j]);
    var v :| 0 <= v < |inner| && inner[v] == x;
    WovenPair(es, cs, j - 1);
    SortedAfterSeparator(Woven(es, cs), Interleaved(es, cs[..j - 1]) + Inorder(cs[j - 1]), es[j - 1],
                         inner, SuffixItems(es, cs, j), v);
  }

  /** In a key-sorted `pre + inner + suf`, every item of `inner` lies below the first item after it. */
  lemma SortedBeforeNext<V>(w: seq<Item<V>>, pre: seq<Item<V>>, inner: seq<Item<V>>, suf: seq<Item<V>>, v: nat)
    requires SortedKeys(w) && w == pre + inner + suf && v < |inner| && |suf| > 0
    ensures inner[v].key < suf[0].key
  {
    assert w[|pre| + v] == inner[v] && w[|pre| + |inner|] == suf[0];
  }

  /** In a key-sorted `pre + [sep] + inner + suf`, every item of `inner` lies above `sep`. */
  lemma SortedAfterSeparator<V>(w: seq<Item<V>>, pre: seq<Item<V>>, sep: Item<V>, inner: seq<Item<V>>,
                                suf: seq<Item<V>>, v: nat)
    requires SortedKeys(w) && w == pre + [sep] + inner + suf && v < |inner|
    ensures sep.key < inner[v].key
  {
    assert w[|pre|] == sep && w[|pre| + 1 + v] == inner[v];
  }

  /** The elements of a sorted internal node are sorted. */
  lemma {:induction false} WovenElementsSorted<V>(es: seq<Item<V>>, cs: seq<Node<V>>)
    requires |cs| == |es| + 1 && SortedKeys(Woven(es, cs))
    ensures SortedKeys(es)
    decreases |es|
  {
    if |es| > 0 {
      var rest := Woven(es[1..], cs[1..]);
      WovenCons(es, cs);
      SortedMiddle(Inorder(cs[0]), [es[0]], rest);
      SortedConcat([es[0]], rest);
      WovenElementsSorted(es[1..], cs[1..]);
      var tail := Node(es[1..], cs[1..]);
      assert Inorder(tail) == rest;
      forall t | 1 <= t < |es| ensures es[0].key < es[t].key {
        ElementAt(tail, t - 1);
        var k := ElementIndex(tail, t - 1);
        assert rest[k] == es[t];
        assert [es[0]][0] == es[0];
      }
    }
  }

  /** The median of a full child goes into the parent at the child's own index. */
  lemma MedianPlace<V>(n: Node<V>, j: nat)
    requires j < |n.children| && |n.children| == |n.elements| + 1
    requires Shaped(n.children[j]) && |n.children[j].elements| > 0
    requires SortedKeys(Inorder(n))
    ensures var (left, median, right) := Split(n.children[j]);
      && Insort(n.elements, median) == ListInsert(n.elements, j, median)
      && Index(ListInsert(n.elements, j, median), median) == Some(j)
  {
    var es := n.elements;
    var median := Split(n.children[j]).1;
    MedianBetween(n, j);
    InsortPlaces(es, median, j);
    IndexFinds(ListInsert(es, j, median), median);
  }

  /** The median of child `j` lies above elements `0 .. j - 1` of the parent and below the rest. */
  lemma MedianBetween<V>(n: Node<V>, j: nat)
    requires j < |n.children| && |n.children| == |n.elements| + 1
    requires Shaped(n.children[j]) && |n.children[j].elements| > 0
    requires SortedKeys(Inorder(n))
    ensures SortedKeys(n.elements)
    ensures forall t :: 0 <= t < j ==> n.elements[t].key < Split(n.children[j]).1.key
    ensures forall t :: j <= t < |n.elements| ==> Split(n.children[j]).1.key < n.elements[t].key
  {
    var es, cs := n.elements, n.children;
    var (left, median, right) := Split(cs[j]);
    SplitInorder(cs[j]);
    assert median in Inorder(cs[j]) by {
      assert Inorder(cs[j])[|Inorder(left)|] == median;
    }
    WovenElementsSorted(es, cs);
    ChildBetween(es, cs, j, median);
    forall t | 0 <= t < j ensures es[t].key < median.key {
      if t < j - 1 {
        assert es[t].key < es[j - 1].key;
      }
    }
    forall t | j <= t < |es| ensures median.key < es[t].key {
      if t > j {
        assert es[j].key < es[t].key;
      }
    }
  }

  /**
   * `_rebalance_insert` on a full child `j` of `n` (abtree.py:209-215, 220-223): the child keeps
   * the part before its median, the median is insorted into the parent, and the new right node
   * becomes the child just after the median's index.
   */
  function SplitChild<V>(n: Node<V>, j: nat): (r: Node<V>)
    requires j < |n.children| && |n.children| == |n.elements| + 1
    requires Shaped(n.children[j]) && |n.children[j].elements| > 0
    requires SortedKeys(Inorder(n))
    ensures |r.elements| == |n.elements| + 1 && |r.children| == |r.elements| + 1
  {
    var (left, median, right) := Split(n.children[j]);
    MedianPlace(n, j);
    var es := Insort(n.elements, median);
    var i := Index(es, median).value;
    Node(es, ListInsert(n.children[j := left], i + 1, right))
  }

  /** A split of a child leaves the inorder visit of the parent unchanged. */
  lemma SplitChildInorder<V>(n: Node<V>, j: nat)
    requires j < |n.children| && |n.children| == |n.elements| + 1
    requires Shaped(n.children[j]) && |n.children[j].elements| > 0
    requires SortedKeys(Inorder(n))
    ensures Inorder(SplitChild(n, j)) == Inorder(n)
  {
    var es, cs := n.elements, n.children;
    var (left, median, right) := Split(cs[j]);
    MedianPlace(n, j);
    SplitInorder(cs[j]);
    assert SplitChild(n, j) == Node(ListInsert(es, j, median), ListInsert(cs[j := left], j + 1, right));
    InorderSplicedPair(es, cs, j, median, left, right);
    WovenAt(es, cs, j);
    Splice(Interleaved(es, cs[..j]), Inorder(left), [median], Inorder(right), SuffixItems(es, cs, j));
  }

  /** Child `j` replaced by `left`, `median`, `right`. */
  lemma InorderSplicedPair<V>(es: seq<Item<V>>, cs: seq<Node<V>>, j: nat, median: Item<V>, left: Node<V>, right: Node<V>)
    requires |cs| == |es| + 1 && j < |cs|
    ensures Inorder(Node(ListInsert(es, j, median), ListInsert(cs[j := left], j + 1, right)))
         == Interleaved(es, cs[..j]) + Inorder(left) + [median] + Inorder(right) + SuffixItems(es, cs, j)
  {
    var es', cs' := ListInsert(es, j, median), ListInsert(cs[j := left], j + 1, right);
    assert es'[j] == median && cs'[j] == left && cs'[j + 1] == right;
    WovenPair(es', cs', j);
    assert cs'[..j] == cs[..j];
    InterleavedSame(es, es', cs[..j]);
    SplitChildSuffix(es, cs, j, median, left, right);
  }

  lemma SplitChildSuffix<V>(es: seq<Item<V>>, cs: seq<Node<V>>, j: nat, median: Item<V>, left: Node<V>, right: Node<V>)
    requires |cs| == |es| + 1 && j < |cs|
    ensures SuffixItems(ListInsert(es, j, median), ListInsert(cs[j := left], j + 1, right), j + 1)
         == SuffixItems(es, cs, j)
  {
    var es', cs' := ListInsert(es, j, median), ListInsert(cs[j := left], j + 1, right);
    assert es'[j + 1..] == es[j..];
    assert cs'[j + 2..] == cs[j + 1..];
    if j < |es| {
      assert es'[j + 1] == es[j];
      assert es'[j + 2..] == es[j + 1..];
    }
  }

  /** A full root splits into a new root holding only the median (abtree.py:216-218). */
  function GrowRoot<V>(n: Node<V>): (r: Node<V>)
    requires |n.elements| > 0
    ensures |r.elements| == 1 && |r.children| == 2
  {
    var (left, median, right) := Split(n);
    Node([median], [left, right])
  }

  lemma GrowRootInorder<V>(n: Node<V>, h: nat, a: int, b: int)
    requires 2 <= a <= (b + 1) / 2 && Tree(n, h, b, b, a, b)
    ensures Inorder(GrowRoot(n)) == Inorder(n)
    ensures Tree(GrowRoot(n), h + 1, 1, b - 1, a, b)
  {
    var (left, median, right) := Split(n);
    SplitInorder(n);
    SplitFits(n, h, a, b);
    WovenCons([median], [left, right]);
    assert [left, right][1..] == [right];
  }

  // ---------------------------------------------------------------------------
  // Insertion along a path
  // ---------------------------------------------------------------------------

  /**
   * `path` leads to a leaf, `i` is an index within it, and putting `e` there keeps the inorder
   * visit sorted: what the map layer guarantees when it calls `_add_element`.
   */
  ghost predicate InsertablePath<V>(n: Node<V>, path: seq<nat>, i: nat, e: Item<V>)
  {
    && ValidPath(n, path) && ShapedAlong(n, path) && IsLeaf(NodeAt(n, path))
    && i <= |NodeAt(n, path).elements|
    && SortedKeys(ItemsBefore(n, path) + ListInsert(NodeAt(n, path).elements, i, e) + ItemsAfter(n, path))
  }

  /** Inserting through child `path[0]` is inserting into that child. */
  lemma DescendInsertable<V>(n: Node<V>, path: seq<nat>, i: nat, e: Item<V>)
    requires path != [] && InsertablePath(n, path, i, e)
    ensures InsertablePath(n.children[path[0]], path[1..], i, e)
  {
    var j := path[0];
    var c := n.children[j];
    var ins := ListInsert(NodeAt(n, path).elements, i, e);
    var pre, suf := Interleaved(n.elements, n.children[..j]), SuffixItems(n.elements, n.children, j);
    Regroup3(pre, ItemsBefore(c, path[1..]), ins, ItemsAfter(c, path[1..]), suf);
    SortedMiddle(pre, ItemsBefore(c, path[1..]) + ins + ItemsAfter(c, path[1..]), suf);
  }

  /** Once child `path[0]` holds the insertion, so does its parent. */
  lemma ChildInserted<V>(n: Node<V>, path: seq<nat>, i: nat, e: Item<V>, c: Node<V>)
    requires path != [] && InsertablePath(n, path, i, e)
    requires Inorder(c) == ItemsBefore(n.children[path[0]], path[1..])
                           + ListInsert(NodeAt(n, path).elements, i, e) + ItemsAfter(n.children[path[0]], path[1..])
    ensures Inorder(Node(n.elements, n.children[path[0] := c]))
         == ItemsBefore(n, path) + ListInsert(NodeAt(n, path).elements, i, e) + ItemsAfter(n, path)
    ensures SortedKeys(Inorder(Node(n.elements, n.children[path[0] := c])))
  {
    var j := path[0];
    var cj := n.children[j];
    var ins := ListInsert(NodeAt(n, path).elements, i, e);
    var pre, suf := Interleaved(n.elements, n.children[..j]), SuffixItems(n.elements, n.children, j);
    InorderUpdateChild(n.elements, n.children, j, c);
    Regroup3(pre, ItemsBefore(cj, path[1..]), ins, ItemsAfter(cj, path[1..]), suf);
  }

  /**
   * `_add_element(p, i, e)` and the calls of `_rebalance_insert` below the node `n`: the new node
   * and whether `_rebalance_insert` reaches `n` (the leaf itself, or a node whose child was split).
   */
  function AddAt<V>(n: Node<V>, path: seq<nat>, i: nat, e: Item<V>, b: nat): (r: (Node<V>, bool))
    requires b >= 1 && InsertablePath(n, path, i, e)
    ensures Shaped(r.0) && IsLeaf(r.0) == IsLeaf(n)
    ensures Inorder(r.0) == ItemsBefore(n, path) + ListInsert(NodeAt(n, path).elements, i, e) + ItemsAfter(n, path)
    decreases path
  {
    if path == [] then
      (Node(ListInsert(n.elements, i, e), n.children), true)
    else
      var j := path[0];
      DescendInsertable(n, path, i, e);
      var (c, grew) := AddAt(n.children[j], path[1..], i, e, b);
      var n1 := Node(n.elements, n.children[j := c]);
      ChildInserted(n, path, i, e, c);
      if grew && |c.elements| >= b then
        SplitChildInorder(n1, j);
        (SplitChild(n1, j), true)
      else
        (n1, false)
  }

  /**
   * With the constructor bound, an insertion below a node of a balanced tree leaves every node
   * below it between `a - 1` and `b - 1` elements; the node itself gains an element exactly when
   * `_rebalance_insert` reaches it, and then holds at most `b`.
   */
  lemma {:induction false} AddAtFits<V>(n: Node<V>, path: seq<nat>, i: nat, e: Item<V>,
                                        h: nat, lo: int, a: int, b: int)
    requires 2 <= a <= (b + 1) / 2 && InsertablePath(n, path, i, e)
    requires Tree(n, h, lo, b - 1, a, b) && |path| == h
    ensures var (r, grew) := AddAt(n, path, i, e, b);
      |r.elements| == |n.elements| + (if grew then 1 else 0) && Tree(r, h, lo, b, a, b)
    decreases path
  {
    if path != [] {
      var j := path[0];
      DescendInsertable(n, path, i, e);
      var r := AddAt(n.children[j], path[1..], i, e, b);
      AddAtFits(n.children[j], path[1..], i, e, h - 1, a - 1, a, b);
      ChildInserted(n, path, i, e, r.0);
      SplitStepFits(n, j, r.0, r.1, h, lo, a, b);
    }
  }

  /** One level of `_rebalance_insert`: child `j` replaced by `c`, split when it is full. */
  lemma SplitStepFits<V>(n: Node<V>, j: nat, c: Node<V>, grew: bool, h: nat, lo: int, a: int, b: int)
    requires 2 <= a <= (b + 1) / 2 && h >= 1
    requires Tree(n, h, lo, b - 1, a, b) && j < |n.children|
    requires Tree(c, h - 1, a - 1, b, a, b) && Shaped(c)
    requires |c.elements| == |n.children[j].elements| + (if grew then 1 else 0)
    requires SortedKeys(Inorder(Node(n.elements, n.children[j := c])))
    ensures var n1 := Node(n.elements, n.children[j := c]);
      var r := if grew && |c.elements| >= b then (SplitChild(n1, j), true) else (n1, false);
      |r.0.elements| == |n.elements| + (if r.1 then 1 else 0) && Tree(r.0, h, lo, b, a, b)
  {
    var n1 := Node(n.elements, n.children[j := c]);
    if grew && |c.elements| >= b {
      SplitFits(c, h - 1, a, b);
      SplitChildFits(n1, j, h, a, b);
    } else {
      assert forall t :: 0 <= t < |n1.children| && t != j ==> n1.children[t] == n.children[t];
    }
  }

  /** The children of a node stay balanced when one of them is split. */
  lemma SplitChildFits<V>(n: Node<V>, j: nat, h: nat, a: int, b: int)
    requires j < |n.children| && |n.children| == |n.elements| + 1
    requires Shaped(n.children[j]) && |n.children[j].elements| > 0
    requires SortedKeys(Inorder(n)) && h > 0
    requires forall t :: 0 <= t < |n.children| && t != j ==> Tree(n.children[t], h - 1, a - 1, b - 1, a, b)
    requires var (left, median, right) := Split(n.children[j]);
      Tree(left, h - 1, a - 1, b - 1, a, b) && Tree(right, h - 1, a - 1, b - 1, a, b)
    ensures forall t :: 0 <= t < |SplitChild(n, j).children| ==> Tree(SplitChild(n, j).children[t], h - 1, a - 1, b - 1, a, b)
  {
    var (left, median, right) := Split(n.children[j]);
    MedianPlace(n, j);
    var r := SplitChild(n, j);
    assert r.children == ListInsert(n.children[j := left], j + 1, right);
    forall t | 0 <= t < |r.children| ensures Tree(r.children[t], h - 1, a - 1, b - 1, a, b) {
      if t < j {
        assert r.children[t] == n.children[t];
      } else if t > j + 1 {
        assert r.children[t] == n.children[t - 1];
      }
    }
  }
}
