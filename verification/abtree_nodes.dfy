/**
 * The node store of the (a,b)-tree of project1/abtree/abtree.py.
 *
 * A node holds its list of items and its list of children. Nodes are values here:
 * a position, which the source represents by a node object, is the path of child
 * indices that leads to that node from the root. The parent back-link of the
 * source is the path with its last index dropped.
 */
module ABTreeNodes {

  /** A key-value pair of the map layer; items compare by key. */
  datatype Item<V> = Item(key: int, value: V)

  datatype Node<V> = Node(elements: seq<Item<V>>, children: seq<Node<V>>)

  /** `is_leaf`: a node without children. */
  predicate IsLeaf<V>(n: Node<V>)
  {
    |n.children| == 0
  }

  // ---------------------------------------------------------------------------
  // Python list primitives used by the source
  // ---------------------------------------------------------------------------

  /** `l.insert(i, x)` for an index within the list. */
  function ListInsert<T>(s: seq<T>, i: nat, x: T): (r: seq<T>)
    requires i <= |s|
    ensures |r| == |s| + 1 && r[i] == x
    ensures forall k :: 0 <= k < i ==> r[k] == s[k]
    ensures forall k :: i < k < |r| ==> r[k] == s[k - 1]
  {
    s[..i] + [x] + s[i..]
  }

  /** `l.pop(i)` for an index within the list (the popped value is `s[i]`). */
  function ListPop<T>(s: seq<T>, i: nat): (r: seq<T>)
    requires i < |s|
    ensures |r| == |s| - 1
    ensures forall k :: 0 <= k < i ==> r[k] == s[k]
    ensures forall k :: i <= k < |r| ==> r[k] == s[k + 1]
  {
    s[..i] + s[i + 1..]
  }

  /** The slice `l[:k]`; Python clamps an index past the end. */
  function Take<T>(s: seq<T>, k: nat): (r: seq<T>)
    ensures |r| == if k <= |s| then k else |s|
    ensures forall t :: 0 <= t < |r| ==> r[t] == s[t]
  {
    if k <= |s| then s[..k] else s
  }

  /** The slice `l[k:]`; empty when `k` is past the end. */
  function Drop<T>(s: seq<T>, k: nat): (r: seq<T>)
    ensures |r| == if k <= |s| then |s| - k else 0
    ensures forall t :: 0 <= t < |r| ==> r[t] == s[k + t]
  {
    if k <= |s| then s[k..] else []
  }

  // ---------------------------------------------------------------------------
  // Inorder visit (`inorder` / `_subtree_inorder`)
  // ---------------------------------------------------------------------------

  /** The items of the subtree rooted at `n` in the order `_subtree_inorder` yields them. */
  function Inorder<V>(n: Node<V>): seq<Item<V>>
    decreases n
  {
    if IsLeaf(n) then n.elements else Woven(n.elements, n.children)
  }

  /** child 0, element 0, child 1, element 1, ..., and the last child. */
  function Woven<V>(es: seq<Item<V>>, cs: seq<Node<V>>): seq<Item<V>>
    requires |cs| > 0
    decreases cs, 1
  {
    Interleaved(es, cs) + Inorder(cs[|cs| - 1])
  }

  /** For each element index i: the items of child i followed by element i. */
  function Interleaved<V>(es: seq<Item<V>>, cs: seq<Node<V>>): seq<Item<V>>
    decreases cs, 0
  {
    if |es| == 0 || |cs| == 0 then [] else Inorder(cs[0]) + [es[0]] + Interleaved(es[1..], cs[1..])
  }

  /** What follows child `j` inside its parent: element `j` and the children after it. */
  function SuffixItems<V>(es: seq<Item<V>>, cs: seq<Node<V>>, j: nat): seq<Item<V>>
  {
    if j < |es| && j + 1 < |cs| then [es[j]] + Woven(es[j + 1..], cs[j + 1..]) else []
  }

  // ---------------------------------------------------------------------------
  // Shape, balance and fill invariants
  // ---------------------------------------------------------------------------

  /** Strictly increasing keys. */
  ghost predicate SortedKeys<V>(s: seq<Item<V>>)
  {
    forall i, j :: 0 <= i < j < |s| ==> s[i].key < s[j].key
  }

  /**
   * The subtree at `n` has all its leaves at depth `h`, every internal node has one
   * child more than it has elements, `n` holds between `lo` and `hi` elements and every
   * node below `n` holds between `a - 1` and `b - 1` elements.
   */
  ghost predicate Tree<V>(n: Node<V>, h: nat, lo: int, hi: int, a: int, b: int)
    decreases n
  {
    && lo <= |n.elements| <= hi
    && (h == 0 ==> IsLeaf(n))
    && (h > 0 ==>
          && |n.children| == |n.elements| + 1
          && forall j :: 0 <= j < |n.children| ==> Tree(n.children[j], h - 1, a - 1, b - 1, a, b))
  }

  /** Every node has at least one element and every internal node one child more than elements. */
  ghost predicate Searchable<V>(n: Node<V>)
    decreases n
  {
    && |n.elements| > 0
    && (!IsLeaf(n) ==>
          && |n.children| == |n.elements| + 1
          && forall j :: 0 <= j < |n.children| ==> Searchable(n.children[j]))
  }

  /** A leaf, or an internal node with one child more than elements. */
  ghost predicate Shaped<V>(n: Node<V>)
  {
    IsLeaf(n) || |n.children| == |n.elements| + 1
  }

  /** Every key of `s` is below every key of `t`. */
  ghost predicate KeysBelow<V>(s: seq<Item<V>>, t: seq<Item<V>>)
  {
    forall u, v :: 0 <= u < |s| && 0 <= v < |t| ==> s[u].key < t[v].key
  }

  // ---------------------------------------------------------------------------
  // Positions as paths
  // ---------------------------------------------------------------------------

  /** The path leads from `n` to a node of its subtree. */
  predicate ValidPath<V>(n: Node<V>, path: seq<nat>)
    decreases path
  {
    path == [] || (path[0] < |n.children| && ValidPath(n.children[path[0]], path[1..]))
  }

  function NodeAt<V>(n: Node<V>, path: seq<nat>): Node<V>
    requires ValidPath(n, path)
    decreases path
  {
    if path == [] then n else NodeAt(n.children[path[0]], path[1..])
  }

  /** `n` with the node at `path` replaced by `m`. */
  function ReplaceAt<V>(n: Node<V>, path: seq<nat>, m: Node<V>): (r: Node<V>)
    requires ValidPath(n, path)
    ensures ValidPath(r, path) && NodeAt(r, path) == m
    ensures path != [] ==> r.elements == n.elements && |r.children| == |n.children|
    decreases path
  {
    if path == [] then m
    else
      var j := path[0];
      Node(n.elements, n.children[j := ReplaceAt(n.children[j], path[1..], m)])
  }

  /** Every node strictly above the end of `path` has one child more than elements. */
  ghost predicate ShapedAlong<V>(n: Node<V>, path: seq<nat>)
    requires ValidPath(n, path)
    decreases path
  {
    path == [] || (|n.children| == |n.elements| + 1 && ShapedAlong(n.children[path[0]], path[1..]))
  }

  /** The items that the inorder visit yields before the subtree at `path`. */
  function ItemsBefore<V>(n: Node<V>, path: seq<nat>): seq<Item<V>>
    requires ValidPath(n, path)
    decreases path
  {
    if path == [] then []
    else Interleaved(n.elements, n.children[..path[0]]) + ItemsBefore(n.children[path[0]], path[1..])
  }

  /** The items that the inorder visit yields after the subtree at `path`. */
  function ItemsAfter<V>(n: Node<V>, path: seq<nat>): seq<Item<V>>
    requires ValidPath(n, path)
    decreases path
  {
    if path == [] then []
    else ItemsAfter(n.children[path[0]], path[1..]) + SuffixItems(n.elements, n.children, path[0])
  }

  // ---------------------------------------------------------------------------
  // Lemmas on the inorder visit
  // ---------------------------------------------------------------------------

  lemma WovenCons<V>(es: seq<Item<V>>, cs: seq<Node<V>>)
    requires |es| >= 1 && |cs| == |es| + 1
    ensures Woven(es, cs) == Inorder(cs[0]) + [es[0]] + Woven(es[1..], cs[1..])
  {
    assert cs[1..][|cs[1..]| - 1] == cs[|cs| - 1];
  }

  /** The inorder visit of a node, split around its child `j`. */
  lemma {:induction false} WovenAt<V>(es: seq<Item<V>>, cs: seq<Node<V>>, j: nat)
    requires |cs| == |es| + 1 && j < |cs|
    ensures Woven(es, cs) == Interleaved(es, cs[..j]) + Inorder(cs[j]) + SuffixItems(es, cs, j)
    decreases j
  {
    if j == 0 {
      WovenFirst(es, cs);
      assert Interleaved(es, cs[..0]) == [];
    } else {
      WovenCons(es, cs);
      WovenAt(es[1..], cs[1..], j - 1);
      InterleavedCons(es, cs, j);
      SuffixTail(es, cs, j);
      Regroup2(Inorder(cs[0]), [es[0]], Interleaved(es[1..], cs[1..][..j - 1]), Inorder(cs[j]), SuffixItems(es, cs, j));
    }
  }

  /** The first child and element of an interleaving of `j > 0` children. */
  lemma InterleavedCons<V>(es: seq<Item<V>>, cs: seq<Node<V>>, j: nat)
    requires |cs| == |es| + 1 && 0 < j < |cs|
    ensures Interleaved(es, cs[..j]) == Inorder(cs[0]) + [es[0]] + Interleaved(es[1..], cs[1..][..j - 1])
    ensures cs[1..][j - 1] == cs[j]
  {
    assert cs[..j][1..] == cs[1..][..j - 1];
    assert cs[..j][0] == cs[0];
  }

  /** What follows child `j > 0` is what follows child `j - 1` of the node without its first child. */
  lemma SuffixTail<V>(es: seq<Item<V>>, cs: seq<Node<V>>, j: nat)
    requires |cs| == |es| + 1 && 0 < j < |cs|
    ensures SuffixItems(es[1..], cs[1..], j - 1) == SuffixItems(es, cs, j)
  {
    if j < |es| {
      assert es[1..][j - 1] == es[j] && es[1..][j..] == es[j + 1..] && cs[1..][j..] == cs[j + 1..];
    }
  }

  lemma Regroup2<T>(a: seq<T>, b: seq<T>, i: seq<T>, c: seq<T>, s: seq<T>)
    ensures a + b + (i + c + s) == a + b + i + c + s
  {
  }

  /** Joining two nodes around a separator joins their inorder visits. */
  lemma {:induction false} WovenConcat<V>(es1: seq<Item<V>>, cs1: seq<Node<V>>, m: Item<V>,
                                          es2: seq<Item<V>>, cs2: seq<Node<V>>)
    requires |cs1| == |es1| + 1 && |cs2| == |es2| + 1
    ensures Woven(es1 + [m] + es2, cs1 + cs2) == Woven(es1, cs1) + [m] + Woven(es2, cs2)
    decreases |es1|
  {
    var es, cs := es1 + [m] + es2, cs1 + cs2;
    WovenCons(es, cs);
    if |es1| == 0 {
      assert es[1..] == es2 && cs[1..] == cs2;
    } else {
      WovenCons(es1, cs1);
      WovenConcat(es1[1..], cs1[1..], m, es2, cs2);
      assert es[1..] == es1[1..] + [m] + es2 && cs[1..] == cs1[1..] + cs2;
    }
  }

  /** The inorder visit of a node, split around the two children beside element `j`. */
  lemma WovenPair<V>(es: seq<Item<V>>, cs: seq<Node<V>>, j: nat)
    requires |cs| == |es| + 1 && j < |es|
    ensures Woven(es, cs)
         == Interleaved(es, cs[..j]) + Inorder(cs[j]) + [es[j]] + Inorder(cs[j + 1]) + SuffixItems(es, cs, j + 1)
  {
    WovenAt(es, cs, j);
    SuffixShift(es, cs, j);
    WovenFirst(es[j + 1..], cs[j + 1..]);
    Regroup(Interleaved(es, cs[..j]), Inorder(cs[j]), [es[j]], Inorder(cs[j + 1]), SuffixItems(es, cs, j + 1));
    Assoc(Interleaved(es, cs[..j]) + Inorder(cs[j]), [es[j]], Inorder(cs[j + 1]) + SuffixItems(es, cs, j + 1));
  }

  lemma WovenFirst<V>(es: seq<Item<V>>, cs: seq<Node<V>>)
    requires |cs| == |es| + 1
    ensures Woven(es, cs) == Inorder(cs[0]) + SuffixItems(es, cs, 0)
  {
    if |es| == 0 {
      WovenSingle(es, cs);
    } else {
      WovenCons(es, cs);
      SuffixFirst(es, cs);
      Assoc(Inorder(cs[0]), [es[0]], Woven(es[1..], cs[1..]));
    }
  }

  /** A node without elements: its only child. */
  lemma WovenSingle<V>(es: seq<Item<V>>, cs: seq<Node<V>>)
    requires |es| == 0 && |cs| == 1
    ensures Woven(es, cs) == Inorder(cs[0]) + SuffixItems(es, cs, 0)
  {
    assert Interleaved(es, cs) == [] && SuffixItems(es, cs, 0) == [];
  }

  lemma SuffixFirst<V>(es: seq<Item<V>>, cs: seq<Node<V>>)
    requires |es| >= 1 && |cs| == |es| + 1
    ensures SuffixItems(es, cs, 0) == [es[0]] + Woven(es[1..], cs[1..])
  {
  }

  /**
   * Regroupings of concatenations. Each is a lemma of its own so that the callers, whose contexts
   * hold many facts about sequences, do not have to find the regrouping themselves.
   */
  lemma Assoc<T>(a: seq<T>, b: seq<T>, c: seq<T>)
    ensures a + b + c == a + (b + c)
  {
  }

  lemma SuffixShift<V>(es: seq<Item<V>>, cs: seq<Node<V>>, j: nat)
    requires |cs| == |es| + 1 && j < |es|
    ensures SuffixItems(es, cs, j) == [es[j]] + Woven(es[j + 1..], cs[j + 1..])
    ensures SuffixItems(es[j + 1..], cs[j + 1..], 0) == SuffixItems(es, cs, j + 1)
    ensures cs[j + 1..][0] == cs[j + 1]
  {
    var es2, cs2 := es[j + 1..], cs[j + 1..];
    if j + 1 < |es| {
      assert es2[0] == es[j + 1] && es2[1..] == es[j + 2..] && cs2[1..] == cs[j + 2..];
    }
  }

  /** `Interleaved` only reads the first `|cs|` elements. */
  lemma {:induction false} InterleavedSame<V>(es: seq<Item<V>>, es': seq<Item<V>>, cs: seq<Node<V>>)
    requires |cs| <= |es| && |cs| <= |es'| && es[..|cs|] == es'[..|cs|]
    ensures Interleaved(es, cs) == Interleaved(es', cs)
    decreases |cs|
  {
    if |cs| > 0 {
      assert es[0] == es[..|cs|][0] && es'[0] == es'[..|cs|][0];
      assert es[1..][..|cs| - 1] == es[..|cs|][1..];
      assert es'[1..][..|cs| - 1] == es'[..|cs|][1..];
      InterleavedSame(es[1..], es'[1..], cs[1..]);
    }
  }

  /** Replacing child `j` of an internal node. */
  lemma InorderUpdateChild<V>(es: seq<Item<V>>, cs: seq<Node<V>>, j: nat, c: Node<V>)
    requires |cs| == |es| + 1 && j < |cs|
    ensures Inorder(Node(es, cs[j := c])) == Interleaved(es, cs[..j]) + Inorder(c) + SuffixItems(es, cs, j)
  {
    var cs' := cs[j := c];
    WovenAt(es, cs', j);
    assert cs'[..j] == cs[..j];
    assert cs'[j + 1..] == cs[j + 1..];
  }

  /** The inorder visit of a subtree replaced inside a tree. */
  lemma {:induction false} InorderReplace<V>(n: Node<V>, path: seq<nat>, m: Node<V>)
    requires ValidPath(n, path) && ShapedAlong(n, path)
    ensures Inorder(ReplaceAt(n, path, m)) == ItemsBefore(n, path) + Inorder(m) + ItemsAfter(n, path)
    decreases path
  {
    if path != [] {
      var j := path[0];
      InorderReplace(n.children[j], path[1..], m);
      InorderUpdateChild(n.elements, n.children, j, ReplaceAt(n.children[j], path[1..], m));
    }
  }

  lemma {:induction false} ReplaceSame<V>(n: Node<V>, path: seq<nat>)
    requires ValidPath(n, path)
    ensures ReplaceAt(n, path, NodeAt(n, path)) == n
    decreases path
  {
    if path != [] {
      ReplaceSame(n.children[path[0]], path[1..]);
    }
  }

  /** Replacing the node at `path` leaves the items before and after it alone. */
  lemma {:induction false} ReplaceAround<V>(n: Node<V>, path: seq<nat>, m: Node<V>)
    requires ValidPath(n, path)
    ensures ItemsBefore(ReplaceAt(n, path, m), path) == ItemsBefore(n, path)
    ensures ItemsAfter(ReplaceAt(n, path, m), path) == ItemsAfter(n, path)
    decreases path
  {
    if path != [] {
      var j := path[0];
      var r := ReplaceAt(n, path, m);
      ReplaceAround(n.children[j], path[1..], m);
      assert r.children[..j] == n.children[..j];
      SuffixItemsChild(n.elements, n.children, j, ReplaceAt(n.children[j], path[1..], m));
    }
  }

  /** `SuffixItems` does not read the child it follows. */
  lemma SuffixItemsChild<V>(es: seq<Item<V>>, cs: seq<Node<V>>, j: nat, c: Node<V>)
    requires j < |cs|
    ensures SuffixItems(es, cs[j := c], j) == SuffixItems(es, cs, j)
  {
    assert cs[j := c][j + 1..] == cs[j + 1..];
  }

  /** The inorder visit of a tree, split around the subtree at `path`. */
  lemma InorderAround<V>(n: Node<V>, path: seq<nat>)
    requires ValidPath(n, path) && ShapedAlong(n, path)
    ensures Inorder(n) == ItemsBefore(n, path) + Inorder(NodeAt(n, path)) + ItemsAfter(n, path)
  {
    InorderReplace(n, path, NodeAt(n, path));
    ReplaceSame(n, path);
  }

  /** Position of element `i` of `n` in the inorder visit of `n`. */
  function ElementIndex<V>(n: Node<V>, i: nat): nat
  {
    if IsLeaf(n) || i >= |n.children| then i else |Interleaved(n.elements, n.children[..i])| + |Inorder(n.children[i])|
  }

  /** Position of element `i` of the node at `path` in the inorder visit of the whole tree. */
  function GIndex<V>(n: Node<V>, path: seq<nat>, i: nat): nat
    requires ValidPath(n, path)
  {
    |ItemsBefore(n, path)| + ElementIndex(NodeAt(n, path), i)
  }

  lemma ElementAt<V>(n: Node<V>, i: nat)
    requires i < |n.elements| && Shaped(n)
    ensures ElementIndex(n, i) < |Inorder(n)| && Inorder(n)[ElementIndex(n, i)] == n.elements[i]
  {
    if !IsLeaf(n) {
      WovenAt(n.elements, n.children, i);
    }
  }

  lemma GIndexAt<V>(n: Node<V>, path: seq<nat>, i: nat)
    requires ValidPath(n, path) && ShapedAlong(n, path)
    requires i < |NodeAt(n, path).elements| && Shaped(NodeAt(n, path))
    ensures GIndex(n, path, i) < |Inorder(n)| && Inorder(n)[GIndex(n, path, i)] == NodeAt(n, path).elements[i]
  {
    InorderAround(n, path);
    ElementAt(NodeAt(n, path), i);
  }

  /** Element `j - 1` and child `j - 1` close the interleaving of the first `j` children. */
  lemma InterleavedStep<V>(es: seq<Item<V>>, cs: seq<Node<V>>, j: nat)
    requires |cs| == |es| + 1 && 0 < j < |cs|
    ensures |Interleaved(es, cs[..j])| == |Interleaved(es, cs[..j - 1])| + |Inorder(cs[j - 1])| + 1
  {
    WovenAt(es, cs, j);
    WovenPair(es, cs, j - 1);
  }

  // ---------------------------------------------------------------------------
  // Paths that extend paths
  // ---------------------------------------------------------------------------

  lemma {:induction false} PathConcat<V>(n: Node<V>, p: seq<nat>, q: seq<nat>)
    requires ValidPath(n, p)
    ensures ValidPath(n, p + q) <==> ValidPath(NodeAt(n, p), q)
    ensures ValidPath(n, p + q) ==> NodeAt(n, p + q) == NodeAt(NodeAt(n, p), q)
    decreases p
  {
    if p == [] {
      assert p + q == q;
    } else {
      assert (p + q)[0] == p[0] && (p + q)[1..] == p[1..] + q;
      PathConcat(n.children[p[0]], p[1..], q);
    }
  }

  lemma PathConcatAround<V>(n: Node<V>, p: seq<nat>, q: seq<nat>)
    requires ValidPath(n, p) && ValidPath(NodeAt(n, p), q)
    ensures ValidPath(n, p + q)
    ensures ItemsBefore(n, p + q) == ItemsBefore(n, p) + ItemsBefore(NodeAt(n, p), q)
    ensures ItemsAfter(n, p + q) == ItemsAfter(NodeAt(n, p), q) + ItemsAfter(n, p)
  {
    PathConcatBefore(n, p, q);
    PathConcatAfter(n, p, q);
  }

  lemma {:induction false} PathConcatBefore<V>(n: Node<V>, p: seq<nat>, q: seq<nat>)
    requires ValidPath(n, p) && ValidPath(NodeAt(n, p), q)
    ensures ValidPath(n, p + q)
    ensures ItemsBefore(n, p + q) == ItemsBefore(n, p) + ItemsBefore(NodeAt(n, p), q)
    decreases p
  {
    PathConcat(n, p, q);
    if p == [] {
      assert p + q == q;
    } else {
      var j, c := p[0], n.children[p[0]];
      assert (p + q)[0] == j && (p + q)[1..] == p[1..] + q;
      PathConcatBefore(c, p[1..], q);
      var head := Interleaved(n.elements, n.children[..j]);
      var b1, b2 := ItemsBefore(c, p[1..]), ItemsBefore(NodeAt(c, p[1..]), q);
      assert ItemsBefore(n, p + q) == head + (b1 + b2);
      assert ItemsBefore(n, p) == head + b1;
      Assoc(head, b1, b2);
    }
  }

  lemma {:induction false} PathConcatAfter<V>(n: Node<V>, p: seq<nat>, q: seq<nat>)
    requires ValidPath(n, p) && ValidPath(NodeAt(n, p), q)
    ensures ValidPath(n, p + q)
    ensures ItemsAfter(n, p + q) == ItemsAfter(NodeAt(n, p), q) + ItemsAfter(n, p)
    decreases p
  {
    PathConcat(n, p, q);
    if p == [] {
      assert p + q == q;
    } else {
      var j, c := p[0], n.children[p[0]];
      assert (p + q)[0] == j && (p + q)[1..] == p[1..] + q;
      PathConcatAfter(c, p[1..], q);
      var tail := SuffixItems(n.elements, n.children, j);
      var a1, a2 := ItemsAfter(NodeAt(c, p[1..]), q), ItemsAfter(c, p[1..]);
      assert ItemsAfter(n, p + q) == (a1 + a2) + tail;
      assert ItemsAfter(n, p) == a2 + tail;
      Assoc(a1, a2, tail);
    }
  }

  lemma {:induction false} PathConcatShaped<V>(n: Node<V>, p: seq<nat>, q: seq<nat>)
    requires ValidPath(n, p) && ValidPath(NodeAt(n, p), q)
    ensures ValidPath(n, p + q)
    ensures ShapedAlong(n, p + q) <==> ShapedAlong(n, p) && ShapedAlong(NodeAt(n, p), q)
    decreases p
  {
    PathConcat(n, p, q);
    if p == [] {
      assert p + q == q;
    } else {
      assert (p + q)[0] == p[0] && (p + q)[1..] == p[1..] + q;
      PathConcatShaped(n.children[p[0]], p[1..], q);
    }
  }

  /** In an internal node, element `i` is followed by the items of child `i + 1`. */
  lemma ElementIndexNext<V>(n: Node<V>, i: nat)
    requires !IsLeaf(n) && Shaped(n) && i < |n.elements|
    ensures ElementIndex(n, i) + 1 == |Interleaved(n.elements, n.children[..i + 1])|
  {
    InterleavedStep(n.elements, n.children, i + 1);
  }

  /** The position of an element below `p` is the count of items before `p` plus its position below `p`. */
  lemma GIndexConcat<V>(n: Node<V>, p: seq<nat>, q: seq<nat>, k: nat)
    requires ValidPath(n, p) && ValidPath(NodeAt(n, p), q)
    ensures ValidPath(n, p + q) && NodeAt(n, p + q) == NodeAt(NodeAt(n, p), q)
    ensures GIndex(n, p + q, k) == |ItemsBefore(n, p)| + GIndex(NodeAt(n, p), q, k)
  {
    PathConcat(n, p, q);
    PathConcatAround(n, p, q);
  }

  /** One step down from the node at `path` to its child `j`. */
  lemma ChildPath<V>(n: Node<V>, path: seq<nat>, j: nat)
    requires ValidPath(n, path) && j < |NodeAt(n, path).children|
    ensures ValidPath(n, path + [j]) && NodeAt(n, path + [j]) == NodeAt(n, path).children[j]
    ensures ItemsBefore(n, path + [j])
         == ItemsBefore(n, path) + Interleaved(NodeAt(n, path).elements, NodeAt(n, path).children[..j])
  {
    var m := NodeAt(n, path);
    assert ValidPath(m, [j]) && [j][0] == j && [j][1..] == [];
    PathConcat(n, path, [j]);
    PathConcatAround(n, path, [j]);
  }

  /** In a balanced tree every path meets only shaped nodes, and reaches a leaf exactly at depth `h`. */
  lemma {:induction false} TreeAlong<V>(n: Node<V>, h: nat, lo: int, hi: int, a: int, b: int, path: seq<nat>)
    requires Tree(n, h, lo, hi, a, b) && ValidPath(n, path)
    ensures ShapedAlong(n, path) && |path| <= h && Shaped(NodeAt(n, path))
    ensures IsLeaf(NodeAt(n, path)) <==> |path| == h
    ensures path != [] ==> Tree(NodeAt(n, path), h - |path|, a - 1, b - 1, a, b)
    decreases path
  {
    if path != [] {
      var c := n.children[path[0]];
      TreeAlong(c, h - 1, a - 1, b - 1, a, b, path[1..]);
    }
  }

  /** In a tree of non-empty shaped nodes every path meets only shaped non-empty nodes. */
  lemma {:induction false} SearchableAlong<V>(n: Node<V>, path: seq<nat>)
    requires Searchable(n) && ValidPath(n, path)
    ensures ShapedAlong(n, path) && Searchable(NodeAt(n, path)) && Shaped(NodeAt(n, path))
    decreases path
  {
    if path != [] {
      SearchableAlong(n.children[path[0]], path[1..]);
    }
  }

  /** A balanced tree whose nodes hold at least one element is searchable. */
  lemma {:induction false} TreeSearchable<V>(n: Node<V>, h: nat, lo: int, hi: int, a: int, b: int)
    requires Tree(n, h, lo, hi, a, b) && lo >= 1 && a >= 2
    ensures Searchable(n)
    decreases n
  {
    if h > 0 {
      forall j | 0 <= j < |n.children| ensures Searchable(n.children[j]) {
        TreeSearchable(n.children[j], h - 1, a - 1, b - 1, a, b);
      }
    }
  }

  // ---------------------------------------------------------------------------
  // Sorted sequences
  // ---------------------------------------------------------------------------

  lemma SortedConcat<V>(s: seq<Item<V>>, t: seq<Item<V>>)
    ensures SortedKeys(s + t) <==> SortedKeys(s) && SortedKeys(t) && KeysBelow(s, t)
  {
    var st := s + t;
    if SortedKeys(st) {
      forall u, v | 0 <= u < v < |t| ensures t[u].key < t[v].key {
        assert t[u] == st[|s| + u] && t[v] == st[|s| + v];
      }
      forall u, v | 0 <= u < v < |s| ensures s[u].key < s[v].key {
        assert s[u] == st[u] && s[v] == st[v];
      }
      forall u, v | 0 <= u < |s| && 0 <= v < |t| ensures s[u].key < t[v].key {
        assert st[u] == s[u] && st[|s| + v] == t[v];
      }
    }
    if SortedKeys(s) && SortedKeys(t) && KeysBelow(s, t) {
      forall u, v | 0 <= u < v < |st| ensures st[u].key < st[v].key {
        if v < |s| {
        } else if u < |s| {
          assert st[v] == t[v - |s|];
        } else {
          assert st[u] == t[u - |s|] && st[v] == t[v - |s|];
        }
      }
    }
  }

  lemma SplitLast<T>(s: seq<T>)
    requires |s| >= 1
    ensures s[..|s| - 1] + [s[|s| - 1]] == s
  {
  }

  /** Two equal middles joined into the same context. */
  lemma SameMiddle<T>(pre: seq<T>, l: seq<T>, x: seq<T>, r: seq<T>, l': seq<T>, x': seq<T>, r': seq<T>, suf: seq<T>)
    requires l + x + r == l' + x' + r'
    ensures pre + l + x + r + suf == pre + l' + x' + r' + suf
  {
    assert pre + l + x + r + suf == pre + (l + x + r) + suf;
    assert pre + l' + x' + r' + suf == pre + (l' + x' + r') + suf;
  }

  /** A five-part concatenation regrouped around its middle three parts. */
  lemma Splice<T>(pre: seq<T>, l: seq<T>, m: seq<T>, r: seq<T>, suf: seq<T>)
    ensures pre + l + m + r + suf == pre + (l + m + r) + suf
  {
  }

  lemma Regroup<T>(s1: seq<T>, s2: seq<T>, s3: seq<T>, s4: seq<T>, s5: seq<T>)
    ensures s1 + s2 + s3 + s4 + s5 == (s1 + s2 + s3) + (s4 + s5)
  {
  }

  lemma Regroup3<T>(pre: seq<T>, s1: seq<T>, s2: seq<T>, s3: seq<T>, suf: seq<T>)
    ensures (pre + s1) + s2 + (s3 + suf) == pre + (s1 + s2 + s3) + suf
  {
  }

  /** Popping inside the middle part of a concatenation. */
  lemma PopInside<T>(pre: seq<T>, s: seq<T>, suf: seq<T>, i: nat)
    requires i < |s|
    ensures ListPop(pre + s + suf, |pre| + i) == pre + ListPop(s, i) + suf
  {
    var l, r := ListPop(pre + s + suf, |pre| + i), pre + ListPop(s, i) + suf;
    assert |l| == |r|;
    forall t | 0 <= t < |l| ensures l[t] == r[t] {
      if t < |pre| + i {
        assert l[t] == (pre + s + suf)[t];
      } else {
        assert l[t] == (pre + s + suf)[t + 1];
      }
    }
  }

  /** Inserting inside the middle part of a concatenation. */
  lemma InsertInside<T>(pre: seq<T>, s: seq<T>, suf: seq<T>, i: nat, x: T)
    requires i <= |s|
    ensures ListInsert(pre + s + suf, |pre| + i, x) == pre + ListInsert(s, i, x) + suf
  {
    var l, r := ListInsert(pre + s + suf, |pre| + i, x), pre + ListInsert(s, i, x) + suf;
    assert |l| == |r|;
    forall t | 0 <= t < |l| ensures l[t] == r[t] {
      if t < |pre| + i {
        assert l[t] == (pre + s + suf)[t];
      } else if t > |pre| + i {
        assert l[t] == (pre + s + suf)[t - 1];
      }
    }
  }

  /** Updating inside the middle part of a concatenation. */
  lemma UpdateInside<T>(pre: seq<T>, s: seq<T>, suf: seq<T>, i: nat, x: T)
    requires i < |s|
    ensures (pre + s + suf)[|pre| + i := x] == pre + s[i := x] + suf
  {
    var l, r := (pre + s + suf)[|pre| + i := x], pre + s[i := x] + suf;
    assert |l| == |r|;
    forall t | 0 <= t < |l| ensures l[t] == r[t] {
    }
  }

  /** Swapping two neighbours and popping the first of them pops the second. */
  lemma SwapPop<T>(s: seq<T>, g: nat)
    requires 1 <= g < |s|
    ensures ListPop(s[g := s[g - 1]][g - 1 := s[g]], g - 1) == ListPop(s, g)
  {
    var l, r := ListPop(s[g := s[g - 1]][g - 1 := s[g]], g - 1), ListPop(s, g);
    assert |l| == |r|;
    forall t | 0 <= t < |l| ensures l[t] == r[t] {
    }
  }

  /** A middle slice of a sorted sequence is sorted. */
  lemma SortedMiddle<V>(s: seq<Item<V>>, m: seq<Item<V>>, t: seq<Item<V>>)
    requires SortedKeys(s + m + t)
    ensures SortedKeys(m) && SortedKeys(s + m) && SortedKeys(m + t)
  {
    SortedConcat(s + m, t);
    SortedConcat(s, m);
    assert s + m + t == s + (m + t);
    SortedConcat(s, m + t);
  }
}
