/**
 * Key search in the (a,b)-tree map (project1/abtree/abtree_map.py): the binary search
 * `_list_search` inside one node, the descent `_subtree_search`, and the abstract view of the
 * map as the key-sorted inorder sequence of its items, with the effect of an assignment and a
 * deletion on that sequence.
 */
module ABTreeSearch {
  import opened Wrappers
  import opened ABTreeNodes
  import opened ABTreeInsert

  // ---------------------------------------------------------------------------
  // The map as a key-sorted sequence of items
  // ---------------------------------------------------------------------------

  /** Some item of `s` has key `k`. */
  ghost predicate HasKey<V>(s: seq<Item<V>>, k: int)
  {
    exists t :: 0 <= t < |s| && s[t].key == k
  }

  /** `s` holds the pair `k: v`. */
  ghost predicate Maps<V>(s: seq<Item<V>>, k: int, v: V)
  {
    exists t :: 0 <= t < |s| && s[t] == Item(k, v)
  }

  /**
   * The outcome of `_list_search(l, key)`: whether `key` is present, and the number of keys
   * of `l` below `key` (on a sorted list, the index of `key` when it is present).
   */
  function Locate<V>(l: seq<Item<V>>, key: int): (r: (bool, nat))
    ensures r.1 <= |l|
  {
    var i := BisectLeft(l, key, 0, |l|);
    (i < |l| && l[i].key == key, i)
  }

  /** On a sorted list the search splits the keys below `key` from the others and finds exactly the present keys. */
  lemma LocateSplits<V>(l: seq<Item<V>>, key: int)
    requires SortedKeys(l)
    ensures forall t :: 0 <= t < Locate(l, key).1 ==> l[t].key < key
    ensures forall t :: Locate(l, key).1 <= t < |l| ==> key <= l[t].key
    ensures Locate(l, key).0 <==> HasKey(l, key)
    ensures !Locate(l, key).0 ==> forall t :: Locate(l, key).1 <= t < |l| ==> key < l[t].key
  {
    BisectLeftSplits(l, key, 0, |l|);
    var i := Locate(l, key).1;
    if !Locate(l, key).0 {
      forall t | i <= t < |l| ensures key < l[t].key {
        if t > i {
          assert l[i].key < l[t].key;
        }
      }
    }
  }

  /** A split point of a sorted list is the lower bound that `Locate` computes. */
  lemma LowerBoundUnique<V>(l: seq<Item<V>>, key: int, i: nat)
    requires SortedKeys(l) && i <= |l|
    requires forall t :: 0 <= t < i ==> l[t].key < key
    requires forall t :: i <= t < |l| ==> key <= l[t].key
    ensures Locate(l, key).1 == i
  {
    LocateSplits(l, key);
    var g := Locate(l, key).1;
    if g < |l| {
      assert key <= l[g].key;
    }
    if i < |l| {
      assert key <= l[i].key;
    }
  }

  /**
   * `_list_search(l, key)` (abtree_map.py:98-119): binary search on a non-empty key-sorted
   * list. The list must be non-empty, since the final comparison reads `l[median]`.
   */
  method ListSearch<V>(l: seq<Item<V>>, key: int) returns (found: bool, i: nat)
    requires |l| > 0 && SortedKeys(l)
    ensures i <= |l|
    ensures found <==> i < |l| && l[i].key == key
    ensures forall t :: 0 <= t < i ==> l[t].key < key
    ensures forall t :: i <= t < |l| ==> key <= l[t].key
    ensures (found, i) == Locate(l, key)
  {
    var inf: int := 0;
    var sup: int := |l| - 1;
    var median: Option<nat> := None;
    found := false;
    while inf <= sup && !found
      invariant 0 <= inf <= sup + 1 <= |l|
      invariant forall t :: 0 <= t < inf ==> l[t].key < key
      invariant forall t :: sup < t < |l| ==> key < l[t].key
      invariant median.None? ==> inf == 0 && sup == |l| - 1 && !found
      invariant median.Some? ==> median.value < |l|
      invariant median.Some? && l[median.value].key < key ==> inf == median.value + 1
      invariant median.Some? && key < l[median.value].key ==> sup == median.value - 1
      invariant median.Some? ==> (l[median.value].key == key <==> found)
      decreases if found then 0 else 1, sup - inf + 1
    {
      var m := (inf + sup) / 2;
      median := Some(m);
      if l[m].key < key {
        inf := m + 1;
      } else if l[m].key == key {
        found := true;
      } else {
        sup := m - 1;
      }
    }
    var m := median.value;
    i := if l[m].key < key then m + 1 else m;
    if found {
      forall t | 0 <= t < i ensures l[t].key < key {
        assert l[t].key < l[m].key;
      }
      forall t | i <= t < |l| ensures key <= l[t].key {
        if t > i {
          assert l[m].key < l[t].key;
        }
      }
    }
    LowerBoundUnique(l, key, i);
  }

  // ---------------------------------------------------------------------------
  // _subtree_search (abtree_map.py:59-64)
  // ---------------------------------------------------------------------------

  /**
   * `_subtree_search(p, key)`: the position and index where the search in each node stops:
   * the index of the key when a node holds it, otherwise the lower bound in the leaf reached
   * by descending into child `i`.
   */
  function SubtreeSearch<V>(n: Node<V>, key: int): (r: (seq<nat>, nat))
    requires Searchable(n)
    ensures ValidPath(n, r.0) && r.1 <= |NodeAt(n, r.0).elements|
    decreases n
  {
    var (found, i) := Locate(n.elements, key);
    if IsLeaf(n) || found then ([], i)
    else
      var (p, k) := SubtreeSearch(n.children[i], key);
      assert ([i] + p)[0] == i && ([i] + p)[1..] == p;
      ([i] + p, k)
  }

  /** The search stops at a node that holds the key, or at a leaf. */
  predicate Found<V>(n: Node<V>, i: nat, key: int)
  {
    i < |n.elements| && n.elements[i].key == key
  }

  /** The items before child `i` of a sorted internal node lie below element `i - 1`, so below any larger key. */
  lemma ItemsBeforeChildBelow<V>(n: Node<V>, i: nat, key: int)
    requires !IsLeaf(n) && Shaped(n) && SortedKeys(Inorder(n)) && i <= |n.elements|
    requires i > 0 ==> n.elements[i - 1].key < key
    ensures |Interleaved(n.elements, n.children[..i])| <= |Inorder(n)|
    ensures forall t :: 0 <= t < |Interleaved(n.elements, n.children[..i])| ==> Inorder(n)[t].key < key
  {
    var s := Inorder(n);
    WovenAt(n.elements, n.children, i);
    if i == 0 {
      assert n.children[..0] == [];
    } else {
      ElementIndexNext(n, i - 1);
      ElementAt(n, i - 1);
      var e := ElementIndex(n, i - 1);
      forall t | 0 <= t < |Interleaved(n.elements, n.children[..i])| ensures s[t].key < key {
        if t < e {
          assert s[t].key < s[e].key;
        }
      }
    }
  }

  /** The items after child `i` of a sorted internal node lie above element `i`, so above any smaller key. */
  lemma ItemsAfterChildAbove<V>(n: Node<V>, i: nat, key: int)
    requires !IsLeaf(n) && Shaped(n) && SortedKeys(Inorder(n)) && i <= |n.elements|
    requires i < |n.elements| ==> key < n.elements[i].key
    ensures |Interleaved(n.elements, n.children[..i])| + |Inorder(n.children[i])| <= |Inorder(n)|
    ensures forall t :: |Interleaved(n.elements, n.children[..i])| + |Inorder(n.children[i])| <= t < |Inorder(n)|
                        ==> key < Inorder(n)[t].key
  {
    var s := Inorder(n);
    WovenAt(n.elements, n.children, i);
    var e := |Interleaved(n.elements, n.children[..i])| + |Inorder(n.children[i])|;
    if i < |n.elements| {
      ElementAt(n, i);
      assert e == ElementIndex(n, i);
      forall t | e <= t < |s| ensures key < s[t].key {
        if t > e {
          assert s[e].key < s[t].key;
        }
      }
    }
  }

  /**
   * The descent into child `i` of `n`: the child is searchable and sorted, and it sits in the
   * inorder visit of `n` right after the items before it.
   */
  lemma DescendSearch<V>(n: Node<V>, i: nat)
    requires Searchable(n) && !IsLeaf(n) && SortedKeys(Inorder(n)) && i <= |n.elements|
    ensures Searchable(n.children[i]) && SortedKeys(Inorder(n.children[i]))
    ensures ValidPath(n, [i]) && ShapedAlong(n, [i]) && NodeAt(n, [i]) == n.children[i]
    ensures ItemsBefore(n, [i]) == Interleaved(n.elements, n.children[..i])
    ensures |ItemsBefore(n, [i])| + |Inorder(n.children[i])| <= |Inorder(n)|
    ensures forall u :: 0 <= u < |Inorder(n.children[i])|
              ==> Inorder(n)[|ItemsBefore(n, [i])| + u] == Inorder(n.children[i])[u]
  {
    var c := n.children[i];
    assert [i][0] == i && [i][1..] == [];
    assert ValidPath(n, [i]) && ShapedAlong(n, [i]);
    InorderAround(n, [i]);
    var pre, suf := ItemsBefore(n, [i]), ItemsAfter(n, [i]);
    SortedMiddle(pre, Inorder(c), suf);
    forall u | 0 <= u < |Inorder(c)| ensures Inorder(n)[|pre| + u] == Inorder(c)[u] {
      assert (pre + Inorder(c) + suf)[|pre| + u] == Inorder(c)[u];
    }
  }

  /**
   * What the search guarantees about the position `p, i` it stops at: every item before it
   * in the inorder visit has a smaller key; the position holds the key when the search found
   * it, and otherwise it lies in a leaf and every item from it on has a larger key.
   */
  ghost predicate Places<V>(n: Node<V>, p: seq<nat>, i: nat, key: int)
    requires ValidPath(n, p)
  {
    && ShapedAlong(n, p) && Shaped(NodeAt(n, p))
    && GIndex(n, p, i) <= |Inorder(n)|
    && (forall t :: 0 <= t < GIndex(n, p, i) ==> Inorder(n)[t].key < key)
    && (Found(NodeAt(n, p), i, key) ==>
          GIndex(n, p, i) < |Inorder(n)| && Inorder(n)[GIndex(n, p, i)] == NodeAt(n, p).elements[i])
    && (!Found(NodeAt(n, p), i, key) ==>
          IsLeaf(NodeAt(n, p)) && forall t :: GIndex(n, p, i) <= t < |Inorder(n)| ==> key < Inorder(n)[t].key)
  }

  /** The key lies between elements `i - 1` and `i` of a sorted internal node. */
  ghost predicate Between<V>(n: Node<V>, i: nat, key: int)
  {
    && Searchable(n) && !IsLeaf(n) && SortedKeys(Inorder(n)) && i <= |n.elements|
    && (i > 0 ==> n.elements[i - 1].key < key)
    && (i < |n.elements| ==> key < n.elements[i].key)
  }

  /** The items before a position below child `i` that precede it in the child precede it in `n`. */
  lemma DescendBelow<V>(n: Node<V>, i: nat, key: int, q: seq<nat>, k: nat)
    requires Between(n, i, key) && ValidPath(n.children[i], q)
    requires GIndex(n.children[i], q, k) <= |Inorder(n.children[i])|
    requires forall t :: 0 <= t < GIndex(n.children[i], q, k) ==> Inorder(n.children[i])[t].key < key
    ensures ValidPath(n, [i] + q) && GIndex(n, [i] + q, k) <= |Inorder(n)|
    ensures GIndex(n, [i] + q, k) == |ItemsBefore(n, [i])| + GIndex(n.children[i], q, k)
    ensures forall t :: 0 <= t < GIndex(n, [i] + q, k) ==> Inorder(n)[t].key < key
  {
    var c := n.children[i];
    var s := Inorder(n);
    DescendSearch(n, i);
    GIndexConcat(n, [i], q, k);
    ItemsBeforeChildBelow(n, i, key);
    var P := |ItemsBefore(n, [i])|;
    forall t | 0 <= t < P + GIndex(c, q, k) ensures s[t].key < key {
      if t >= P {
        assert s[t] == Inorder(c)[t - P];
      }
    }
  }

  /** The items after a position below child `i` that follow it in the child follow it in `n`. */
  lemma DescendAbove<V>(n: Node<V>, i: nat, key: int, q: seq<nat>, k: nat)
    requires Between(n, i, key) && ValidPath(n.children[i], q)
    requires GIndex(n.children[i], q, k) <= |Inorder(n.children[i])|
    requires forall t :: GIndex(n.children[i], q, k) <= t < |Inorder(n.children[i])| ==> key < Inorder(n.children[i])[t].key
    ensures ValidPath(n, [i] + q)
    ensures forall t :: GIndex(n, [i] + q, k) <= t < |Inorder(n)| ==> key < Inorder(n)[t].key
  {
    var c := n.children[i];
    var s := Inorder(n);
    DescendSearch(n, i);
    GIndexConcat(n, [i], q, k);
    ItemsAfterChildAbove(n, i, key);
    var P := |ItemsBefore(n, [i])|;
    forall t | P + GIndex(c, q, k) <= t < |s| ensures key < s[t].key {
      if t < P + |Inorder(c)| {
        assert s[t] == Inorder(c)[t - P];
      }
    }
  }

  /** A position the search places correctly in child `i` is placed correctly in `n`. */
  lemma DescendPlaces<V>(n: Node<V>, i: nat, key: int, q: seq<nat>, k: nat)
    requires Between(n, i, key)
    requires ValidPath(n.children[i], q) && Places(n.children[i], q, k, key)
    ensures ValidPath(n, [i] + q) && Places(n, [i] + q, k, key)
  {
    if Found(NodeAt(n.children[i], q), k, key) {
      DescendFound(n, i, key, q, k);
    } else {
      DescendMissing(n, i, key, q, k);
    }
  }

  /** `DescendPlaces` when the key is at the position. */
  lemma DescendFound<V>(n: Node<V>, i: nat, key: int, q: seq<nat>, k: nat)
    requires Between(n, i, key)
    requires ValidPath(n.children[i], q) && Places(n.children[i], q, k, key)
    requires Found(NodeAt(n.children[i], q), k, key)
    ensures ValidPath(n, [i] + q) && Places(n, [i] + q, k, key)
  {
    DescendItem(n, i, key, q, k);
    PathConcatShaped(n, [i], q);
    DescendBelow(n, i, key, q, k);
  }

  /** The item at a position below child `i` is the item at the same position read from `n`. */
  lemma DescendItem<V>(n: Node<V>, i: nat, key: int, q: seq<nat>, k: nat)
    requires Between(n, i, key)
    requires ValidPath(n.children[i], q) && GIndex(n.children[i], q, k) < |Inorder(n.children[i])|
    ensures ValidPath(n, [i] + q) && NodeAt(n, [i] + q) == NodeAt(n.children[i], q)
    ensures GIndex(n, [i] + q, k) < |Inorder(n)|
    ensures Inorder(n)[GIndex(n, [i] + q, k)] == Inorder(n.children[i])[GIndex(n.children[i], q, k)]
  {
    DescendSearch(n, i);
    GIndexConcat(n, [i], q, k);
  }

  /** `DescendPlaces` when the key is not at the position. */
  lemma DescendMissing<V>(n: Node<V>, i: nat, key: int, q: seq<nat>, k: nat)
    requires Between(n, i, key)
    requires ValidPath(n.children[i], q) && Places(n.children[i], q, k, key)
    requires !Found(NodeAt(n.children[i], q), k, key)
    ensures ValidPath(n, [i] + q) && Places(n, [i] + q, k, key)
  {
    DescendSearch(n, i);
    GIndexConcat(n, [i], q, k);
    PathConcatShaped(n, [i], q);
    DescendBelow(n, i, key, q, k);
    DescendAbove(n, i, key, q, k);
  }

  /** The descent finds the lower bound of the key in the inorder visit (see `Places`). */
  lemma {:induction false} SubtreeSearchPlaces<V>(n: Node<V>, key: int)
    requires Searchable(n) && SortedKeys(Inorder(n))
    ensures Places(n, SubtreeSearch(n, key).0, SubtreeSearch(n, key).1, key)
    decreases n
  {
    var es := n.elements;
    var s := Inorder(n);
    if IsLeaf(n) {
      LocateSplits(es, key);
    } else {
      WovenElementsSorted(es, n.children);
      LocateSplits(es, key);
      var (found, i) := Locate(es, key);
      if found {
        ElementAt(n, i);
        forall t | 0 <= t < ElementIndex(n, i) ensures s[t].key < key {
          assert s[t].key < s[ElementIndex(n, i)].key;
        }
      } else {
        var c := n.children[i];
        DescendSearch(n, i);
        SubtreeSearchPlaces(c, key);
        var (q, k) := SubtreeSearch(c, key);
        DescendPlaces(n, i, key, q, k);
      }
    }
  }

  /**
   * The descent computes what `_list_search` computes on the whole inorder visit: whether the
   * key is present, and its lower bound.
   */
  lemma SubtreeSearchLocates<V>(n: Node<V>, key: int)
    requires Searchable(n) && SortedKeys(Inorder(n))
    ensures var (p, i) := SubtreeSearch(n, key);
      && ShapedAlong(n, p) && Shaped(NodeAt(n, p))
      && Locate(Inorder(n), key) == (Found(NodeAt(n, p), i, key), GIndex(n, p, i))
      && (Found(NodeAt(n, p), i, key) ==> Inorder(n)[GIndex(n, p, i)] == NodeAt(n, p).elements[i])
      && (!Found(NodeAt(n, p), i, key) ==> IsLeaf(NodeAt(n, p)))
  {
    var (p, i) := SubtreeSearch(n, key);
    SubtreeSearchPlaces(n, key);
    var s, g := Inorder(n), GIndex(n, p, i);
    LowerBoundUnique(s, key, g);
    LocateSplits(s, key);
  }

  /** Putting an item at the search's leaf position puts it at its lower bound in the inorder visit. */
  lemma InsertInorder<V>(n: Node<V>, p: seq<nat>, i: nat, e: Item<V>)
    requires Searchable(n) && SortedKeys(Inorder(n))
    requires (p, i) == SubtreeSearch(n, e.key) && !Found(NodeAt(n, p), i, e.key)
    ensures ShapedAlong(n, p) && IsLeaf(NodeAt(n, p)) && !Locate(Inorder(n), e.key).0
    ensures ItemsBefore(n, p) + ListInsert(NodeAt(n, p).elements, i, e) + ItemsAfter(n, p)
         == ListInsert(Inorder(n), Locate(Inorder(n), e.key).1, e)
  {
    SubtreeSearchLocates(n, e.key);
    InorderAround(n, p);
    InsertInside(ItemsBefore(n, p), NodeAt(n, p).elements, ItemsAfter(n, p), i, e);
  }

  /**
   * Where `__setitem__` puts a new key: the search position is a leaf position at which the
   * item keeps the inorder visit sorted, and it lands at its lower bound.
   */
  lemma InsertPlaces<V>(n: Node<V>, p: seq<nat>, i: nat, e: Item<V>)
    requires Searchable(n) && SortedKeys(Inorder(n))
    requires (p, i) == SubtreeSearch(n, e.key) && !Found(NodeAt(n, p), i, e.key)
    ensures InsertablePath(n, p, i, e) && !Locate(Inorder(n), e.key).0
    ensures ItemsBefore(n, p) + ListInsert(NodeAt(n, p).elements, i, e) + ItemsAfter(n, p)
         == ListInsert(Inorder(n), Locate(Inorder(n), e.key).1, e)
  {
    InsertInorder(n, p, i, e);
    LocateSplits(Inorder(n), e.key);
    InsortPlaces(Inorder(n), e, Locate(Inorder(n), e.key).1);
  }

  // ---------------------------------------------------------------------------
  // Assignment and deletion on the abstract sequence
  // ---------------------------------------------------------------------------

  /** `m[k] = v` on the key-sorted sequence: overwrite the item with key `k`, or insert it in place. */
  function Upsert<V>(s: seq<Item<V>>, k: int, v: V): (r: seq<Item<V>>)
    ensures |r| == |s| || |r| == |s| + 1
  {
    var (found, g) := Locate(s, k);
    if found then s[g := Item(k, v)] else ListInsert(s, g, Item(k, v))
  }

  /** `del m[k]` on the key-sorted sequence: drop the item with key `k`, if there is one. */
  function Remove<V>(s: seq<Item<V>>, k: int): (r: seq<Item<V>>)
    ensures |r| == |s| || |r| + 1 == |s|
  {
    var (found, g) := Locate(s, k);
    if found then ListPop(s, g) else s
  }

  /** A sorted sequence holds at most one value per key. */
  lemma MapsUnique<V>(s: seq<Item<V>>, k: int, v: V, w: V)
    requires SortedKeys(s) && Maps(s, k, v) && Maps(s, k, w)
    ensures v == w
  {
    var t :| 0 <= t < |s| && s[t] == Item(k, v);
    var u :| 0 <= u < |s| && s[u] == Item(k, w);
    assert t == u;
  }

  /**
   * Assignment keeps the sequence sorted, maps `k` to `v` and nothing else anew, and adds one
   * item exactly when `k` was absent.
   */
  lemma UpsertSpec<V>(s: seq<Item<V>>, k: int, v: V)
    requires SortedKeys(s)
    ensures SortedKeys(Upsert(s, k, v))
    ensures |Upsert(s, k, v)| == |s| + (if HasKey(s, k) then 0 else 1)
    ensures forall k', v' :: Maps(Upsert(s, k, v), k', v') <==> if k' == k then v' == v else Maps(s, k', v')
  {
    LocateSplits(s, k);
    var (found, g) := Locate(s, k);
    if found {
      UpsertReplaces(s, k, v, g);
    } else {
      UpsertInserts(s, k, v, g);
    }
  }

  /** `UpsertSpec` when `k` is present at index `g`: the value there is replaced. */
  lemma UpsertReplaces<V>(s: seq<Item<V>>, k: int, v: V, g: nat)
    requires SortedKeys(s) && Locate(s, k) == (true, g)
    ensures SortedKeys(Upsert(s, k, v))
    ensures |Upsert(s, k, v)| == |s| + (if HasKey(s, k) then 0 else 1)
    ensures forall k', v' :: Maps(Upsert(s, k, v), k', v') <==> if k' == k then v' == v else Maps(s, k', v')
  {
    LocateSplits(s, k);
    var r := Upsert(s, k, v);
    forall u, w | 0 <= u < w < |r| ensures r[u].key < r[w].key {
      assert r[u].key == s[u].key && r[w].key == s[w].key;
    }
    forall k', v' ensures Maps(r, k', v') <==> if k' == k then v' == v else Maps(s, k', v') {
      if Maps(r, k', v') {
        var t :| 0 <= t < |r| && r[t] == Item(k', v');
        if t != g {
          assert s[t] == Item(k', v');
          assert k' != k by {
            assert s[t].key != s[g].key;
          }
        }
      }
      if k' == k && v' == v {
        assert r[g] == Item(k', v');
      }
      if k' != k && Maps(s, k', v') {
        var t :| 0 <= t < |s| && s[t] == Item(k', v');
        assert r[t] == Item(k', v');
      }
    }
  }

  /** `UpsertSpec` when `k` is absent and belongs at index `g`: a new item goes in there. */
  lemma UpsertInserts<V>(s: seq<Item<V>>, k: int, v: V, g: nat)
    requires SortedKeys(s) && Locate(s, k) == (false, g)
    ensures SortedKeys(Upsert(s, k, v))
    ensures |Upsert(s, k, v)| == |s| + (if HasKey(s, k) then 0 else 1)
    ensures forall k', v' :: Maps(Upsert(s, k, v), k', v') <==> if k' == k then v' == v else Maps(s, k', v')
  {
    LocateSplits(s, k);
    var r := Upsert(s, k, v);
    InsortPlaces(s, Item(k, v), g);
    InsertedMaps(s, k, v, g, r);
  }

  /** A pair for a new key inserted anywhere: the pairs are the old ones and the new one. */
  lemma InsertedMaps<V>(s: seq<Item<V>>, k: int, v: V, g: nat, r: seq<Item<V>>)
    requires g <= |s| && r == ListInsert(s, g, Item(k, v)) && !HasKey(s, k)
    ensures forall k', v' :: Maps(r, k', v') <==> if k' == k then v' == v else Maps(s, k', v')
  {
    forall k', v' ensures Maps(r, k', v') <==> if k' == k then v' == v else Maps(s, k', v') {
      if Maps(r, k', v') {
        var t :| 0 <= t < |r| && r[t] == Item(k', v');
        if t < g {
          assert s[t] == Item(k', v');
        } else if t > g {
          assert s[t - 1] == Item(k', v');
        }
      }
      if k' == k && v' == v {
        assert r[g] == Item(k', v');
      }
      if k' != k && Maps(s, k', v') {
        var t :| 0 <= t < |s| && s[t] == Item(k', v');
        if t < g {
          assert r[t] == Item(k', v');
        } else {
          assert r[t + 1] == Item(k', v');
        }
      }
    }
  }

  /** Deletion keeps the sequence sorted, drops exactly the pair of `k`, and one item exactly when `k` was present. */
  lemma RemoveSpec<V>(s: seq<Item<V>>, k: int)
    requires SortedKeys(s)
    ensures SortedKeys(Remove(s, k))
    ensures |Remove(s, k)| == |s| - (if HasKey(s, k) then 1 else 0)
    ensures forall k', v' :: Maps(Remove(s, k), k', v') <==> k' != k && Maps(s, k', v')
  {
    LocateSplits(s, k);
    var (found, g) := Locate(s, k);
    var r := Remove(s, k);
    if found {
      forall u, w | 0 <= u < w < |r| ensures r[u].key < r[w].key {
        var u', w' := if u < g then u else u + 1, if w < g then w else w + 1;
        assert r[u] == s[u'] && r[w] == s[w'];
      }
      forall k', v' ensures Maps(r, k', v') <==> k' != k && Maps(s, k', v') {
        if Maps(r, k', v') {
          var t :| 0 <= t < |r| && r[t] == Item(k', v');
          var t' := if t < g then t else t + 1;
          assert s[t'] == Item(k', v');
          assert s[t'].key != s[g].key;
        }
        if k' != k && Maps(s, k', v') {
          var t :| 0 <= t < |s| && s[t] == Item(k', v');
          assert t != g;
          if t < g {
            assert r[t] == Item(k', v');
          } else {
            assert r[t - 1] == Item(k', v');
          }
        }
      }
    } else {
      forall k', v' | Maps(s, k', v') ensures k' != k {
        var t :| 0 <= t < |s| && s[t] == Item(k', v');
      }
    }
  }
}
