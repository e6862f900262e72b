/**
 * The sorted map on an (a,b)-tree (project1/abtree/abtree_map.py, with the tree state of
 * project1/abtree/abtree.py).
 *
 * The object keeps the root (None for an empty tree), the `_size` counter and the bounds `a`
 * and `b`. The mutators reassign the root to the tree that the surgery of `ABTreeInsert` and
 * `ABTreeDelete` computes. The map's contents are the inorder visit of the root, which stays
 * sorted by key; `_size` stays equal to its length.
 */
module ABTreeMapLayer {
  import opened Wrappers
  import opened Exceptions
  import opened ABTreeNodes
  import opened ABTreeNav
  import opened ABTreeInsert
  import opened ABTreeDelete
  import opened ABTreeSearch

  /** The constructor's admissible bounds (abtree.py:71-72). */
  predicate ValidBounds(a: int, b: int)
  {
    2 <= a <= (b + 1) / 2
  }

  /** The items of a tree in inorder, which is key order; none for the empty tree. */
  function Contents<V>(root: Option<Node<V>>): seq<Item<V>>
  {
    if root.None? then [] else Inorder(root.value)
  }

  /**
   * The invariant of the map state: every node below the root holds between `a - 1` and
   * `b - 1` elements and the root between 1 and `b - 1`, all leaves lie at depth `h`, the keys
   * are sorted and the size counter is the number of items.
   */
  ghost predicate ValidRoot<V>(root: Option<Node<V>>, h: nat, a: int, b: int, size: int)
  {
    && ValidBounds(a, b)
    && (root.None? ==> size == 0)
    && (root.Some? ==> Tree(root.value, h, 1, b - 1, a, b))
    && SortedKeys(Contents(root))
    && size == |Contents(root)|
  }

  class ABTreeMap<V> {
    var root: Option<Node<V>>
    var size: nat
    const a: int
    const b: int
    /** The depth of every leaf below the root. */
    ghost var height: nat

    /** The items of the map in key order. */
    function Items(): seq<Item<V>>
      reads this
    {
      Contents(root)
    }

    ghost predicate Valid()
      reads this
    {
      ValidRoot(root, height, a, b, size)
    }

    /** The state right after `__init__` has accepted the bounds. */
    constructor Empty(a: int, b: int)
      requires ValidBounds(a, b)
      ensures Valid() && Items() == [] && size == 0
      ensures this.a == a && this.b == b
    {
      this.a, this.b := a, b;
      root, size, height := None, 0, 0;
    }

    /** `ABTree(a, b)` (abtree.py:62-76): ValueError unless `2 <= a <= (b + 1) // 2`. */
    static method New(a: int, b: int) returns (r: Result<ABTreeMap<V>, Error>)
      ensures r.Failure? <==> !ValidBounds(a, b)
      ensures r.Failure? ==> r.error == ValueError
      ensures r.Success? ==> fresh(r.value) && r.value.Valid() && r.value.Items() == []
      ensures r.Success? ==> r.value.a == a && r.value.b == b
    {
      if !ValidBounds(a, b) {
        return Failure(ValueError);
      }
      var t := new ABTreeMap.Empty(a, b);
      return Success(t);
    }

    /** `__len__` (abtree.py:105-107). */
    method Len() returns (n: nat)
      requires Valid()
      ensures n == |Items()|
    {
      return size;
    }

    /** The facts about the root that every query needs. */
    lemma RootFacts()
      requires Valid() && root.Some?
      ensures Searchable(root.value) && Balanced(root.value, Depth(root.value), a) && Depth(root.value) == height
      ensures |root.value.elements| >= 1 && size >= 1
    {
      TreeSearchable(root.value, height, 1, b - 1, a, b);
      TreeBalanced(root.value, height, 1, b - 1, a, b);
      BalancedDepth(root.value, height, a);
      ElementAt(root.value, 0);
    }

    /** The tree is empty exactly when it has no root. */
    lemma EmptyIsRootless()
      requires Valid()
      ensures size == 0 <==> root.None?
    {
      if root.Some? {
        RootFacts();
      }
    }

    /**
     * `__getitem__(key)` (abtree_map.py:33-45): the value stored under `key`; KeyError when
     * the tree is empty or the key is absent.
     */
    method Get(key: int) returns (r: Result<V, Error>)
      requires Valid()
      ensures r.Success? <==> HasKey(Items(), key)
      ensures r.Success? ==> Maps(Items(), key, r.value)
      ensures r.Failure? ==> r.error == KeyError
    {
      if size == 0 {
        return Failure(KeyError);
      }
      var n := root.value;
      RootFacts();
      var (p, i) := SubtreeSearch(n, key);
      SubtreeSearchLocates(n, key);
      LocateSplits(Inorder(n), key);
      var node := NodeAt(n, p);
      if i < |node.elements| && node.elements[i].key == key {
        r := Success(node.elements[i].value);
        assert Items()[GIndex(n, p, i)] == Item(key, r.value);
      } else {
        r := Failure(KeyError);
      }
    }

    /**
     * `_add_root(e)` (abtree.py:177-187): ValueError when a root exists; otherwise the root
     * holds exactly `e`, the size is 1, and the position returned is the root's index 0.
     */
    method AddRoot(e: Item<V>) returns (r: Result<(seq<nat>, nat), Error>)
      requires Valid()
      modifies this
      ensures r.Failure? <==> old(root).Some?
      ensures r.Failure? ==> r.error == ValueError && root == old(root) && size == old(size)
      ensures r.Success? ==> root == Some(Node([e], [])) && size == 1 && r.value == ([], 0)
      ensures r.Success? ==> Items() == [e] && Valid()
    {
      if root.Some? {
        return Failure(ValueError);
      }
      root, size, height := Some(Node([e], [])), 1, 0;
      return Success(([], 0));
    }

    /**
     * `_add_element(p, i, e)` (abtree.py:189-191) with `_rebalance_insert` (abtree.py:204-224):
     * `e` goes into the leaf at `p` at index `i`, the size grows by one, full nodes are split
     * on the way up, and a full root gives way to a new root holding only its median. The
     * caller supplies a leaf position at which `e` keeps the keys sorted.
     */
    method AddElement(p: seq<nat>, i: nat, e: Item<V>)
      requires Valid() && root.Some? && InsertablePath(root.value, p, i, e)
      modifies this
      ensures Valid() && size == old(size) + 1
      ensures GIndex(old(root).value, p, i) <= |old(Items())|
      ensures Items() == ListInsert(old(Items()), GIndex(old(root).value, p, i), e)
    {
      var n := root.value;
      ghost var h0, s0 := height, size;
      var (r, grown) := AddToRoot(n, p, i, e, b);
      root, size := Some(r), size + 1;
      if grown {
        height := height + 1;
      }
      AddedValid(n, h0, s0, p, i, e);
    }

    lemma AddedValid(n: Node<V>, h0: nat, s0: nat, p: seq<nat>, i: nat, e: Item<V>)
      requires ValidRoot(Some(n), h0, a, b, s0) && InsertablePath(n, p, i, e)
      requires root == Some(AddToRoot(n, p, i, e, b).0) && size == s0 + 1
      requires height == if AddToRoot(n, p, i, e, b).1 then h0 + 1 else h0
      ensures Valid() && GIndex(n, p, i) <= |Contents(Some(n))|
      ensures Items() == ListInsert(Contents(Some(n)), GIndex(n, p, i), e)
    {
      AddElementFits(n, h0, a, b, s0, p, i, e);
    }

    /**
     * `_delete_element(p, i)` (abtree.py:193-202) with `_rebalance_delete` (abtree.py:226-256):
     * the item at element `i` of the node at `p` goes (after a swap with its inorder
     * predecessor when the node is internal), the size drops by one, underflows are repaired
     * on the way up, the root becomes None when the tree empties, and a root left without
     * elements is replaced by its first child.
     */
    method DeleteElement(p: seq<nat>, i: nat)
      requires Valid() && root.Some? && ValidPath(root.value, p) && i < |NodeAt(root.value, p).elements|
      modifies this
      ensures Valid() && size == old(size) - 1
      ensures GIndex(old(root).value, p, i) < |old(Items())|
      ensures Items() == ListPop(old(Items()), GIndex(old(root).value, p, i))
    {
      var n := root.value;
      ghost var h0, s0 := height, size;
      RootFacts();
      var (t, shrank) := DeleteAt(n, p, i, a);
      DeleteElementFits(n, h0, a, b, s0, p, i);
      size := size - 1;
      if size == 0 {
        root := None;
      } else if shrank && |t.elements| < 1 {
        root, height := Some(t.children[0]), height - 1;
      } else {
        root := Some(t);
      }
      DeletedValid(n, h0, s0, p, i, t, shrank);
    }

    /** The state `DeleteElement` leaves is valid and holds the old items but the one removed. */
    lemma DeletedValid(n: Node<V>, h0: nat, s0: nat, p: seq<nat>, i: nat, t: Node<V>, shrank: bool)
      requires ValidRoot(Some(n), h0, a, b, s0) && Balanced(n, Depth(n), a) && |n.elements| >= 1
      requires ValidPath(n, p) && i < |NodeAt(n, p).elements| && (t, shrank) == DeleteAt(n, p, i, a)
      requires size + 1 == s0
      requires size == 0 ==> root == None
      requires size > 0 && shrank && |t.elements| < 1 ==>
        !IsLeaf(t) && root == Some(t.children[0]) && height + 1 == h0
      requires size > 0 && !(shrank && |t.elements| < 1) ==> root == Some(t) && height == h0
      ensures Valid() && GIndex(n, p, i) < |Contents(Some(n))|
      ensures Items() == ListPop(Contents(Some(n)), GIndex(n, p, i))
    {
      DeleteElementFits(n, h0, a, b, s0, p, i);
    }

    /**
     * `__setitem__(key, v)` (abtree_map.py:76-86): an existing key gets the new value in place
     * and nothing else changes; a new key becomes the root of an empty tree, or goes into the
     * leaf the search reached, at the index the search found.
     */
    method SetItem(key: int, v: V)
      requires Valid()
      modifies this
      ensures Valid()
      ensures Items() == Upsert(old(Items()), key, v)
      ensures size == old(size) + (if HasKey(old(Items()), key) then 0 else 1)
    {
      UpsertSpec(Items(), key, v);
      var e := Item(key, v);
      if size == 0 {
        EmptyIsRootless();
        assert Upsert(Items(), key, v) == [e];
        var _ := AddRoot(e);
        return;
      }
      var n := root.value;
      RootFacts();
      var (p, i) := SubtreeSearch(n, key);
      var node := NodeAt(n, p);
      if i < |node.elements| && node.elements[i].key == key {
        // p.element()[i]._value = v
        OverwriteFits(n, height, a, b, key, v);
        root := Some(SetElement(n, p, i, e));
        return;
      }
      NewKeyPlaces(n, key, v);
      AddElement(p, i, e);
    }

    /**
     * `__delitem__(key)` (abtree_map.py:88-96): KeyError when the tree is empty or the key is
     * absent, and then nothing changes; otherwise the item with that key goes.
     */
    method DelItem(key: int) returns (r: Result<(), Error>)
      requires Valid()
      modifies this
      ensures Valid()
      ensures r.Failure? <==> !HasKey(old(Items()), key)
      ensures r.Failure? ==> r.error == KeyError && root == old(root)
      ensures Items() == Remove(old(Items()), key)
      ensures size == old(size) - (if HasKey(old(Items()), key) then 1 else 0)
    {
      RemoveSpec(Items(), key);
      if size == 0 {
        return Failure(KeyError);
      }
      var n := root.value;
      RootFacts();
      var (p, i) := SubtreeSearch(n, key);
      SubtreeSearchLocates(n, key);
      LocateSplits(Inorder(n), key);
      var node := NodeAt(n, p);
      if !(i < |node.elements| && node.elements[i].key == key) {
        return Failure(KeyError);
      }
      DeleteElement(p, i);
      r := Success(());
    }

    /**
     * `search(key)` (abtree_map.py:47-57): the position holding `key`, otherwise the position
     * where the search ended, moved back by one when it lies past the end of its leaf: the
     * item there is the next larger or the next smaller item of the map. On an empty tree the
     * source calls a method of None, which raises AttributeError.
     */
    method Search(key: int) returns (r: Result<(seq<nat>, nat), Error>)
      requires Valid()
      ensures r.Failure? <==> size == 0
      ensures r.Failure? ==> r.error == AttributeError
      ensures r.Success? ==> root.Some? && ValidPath(root.value, r.value.0)
      ensures r.Success? ==> r.value.1 < |NodeAt(root.value, r.value.0).elements|
      ensures r.Success? ==> GIndex(root.value, r.value.0, r.value.1) < |Items()|
      ensures r.Success? ==> Items()[GIndex(root.value, r.value.0, r.value.1)]
                             == NodeAt(root.value, r.value.0).elements[r.value.1]
      ensures r.Success? && HasKey(Items(), key) ==> Items()[GIndex(root.value, r.value.0, r.value.1)].key == key
      ensures r.Success? && !HasKey(Items(), key) ==>
                var g := Locate(Items(), key).1;
                GIndex(root.value, r.value.0, r.value.1) == g || GIndex(root.value, r.value.0, r.value.1) + 1 == g
    {
      if size == 0 {
        return Failure(AttributeError);
      }
      var n := root.value;
      RootFacts();
      var (p, i) := SubtreeSearch(n, key);
      SubtreeSearchLocates(n, key);
      LocateSplits(Inorder(n), key);
      SearchableAlong(n, p);
      var node := NodeAt(n, p);
      if i < |node.elements| {
        r := Success((p, i));
      } else {
        r := Success((p, i - 1));
      }
      GIndexAt(n, p, r.value.1);
    }

    /** `find_min()` (abtree_map.py:66-69): the item at the first position; TypeError on an empty tree. */
    method FindMin() returns (r: Result<(int, V), Error>)
      requires Valid()
      ensures r.Failure? <==> |Items()| == 0
      ensures r.Failure? ==> r.error == TypeError
      ensures r.Success? ==> Maps(Items(), r.value.0, r.value.1)
      ensures r.Success? ==> forall t :: 0 <= t < |Items()| ==> r.value.0 <= Items()[t].key
    {
      if root.None? {
        return Failure(TypeError);
      }
      var n := root.value;
      RootFacts();
      var (p, i) := FirstPosition(n);
      FirstPositionIsFirst(n);
      GIndexAt(n, p, i);
      var it := NodeAt(n, p).elements[i];
      r := Success((it.key, it.value));
      assert Items()[0] == it;
    }

    /** `find_max()` (abtree_map.py:71-74): the item at the last position; TypeError on an empty tree. */
    method FindMax() returns (r: Result<(int, V), Error>)
      requires Valid()
      ensures r.Failure? <==> |Items()| == 0
      ensures r.Failure? ==> r.error == TypeError
      ensures r.Success? ==> Maps(Items(), r.value.0, r.value.1)
      ensures r.Success? ==> forall t :: 0 <= t < |Items()| ==> Items()[t].key <= r.value.0
    {
      if root.None? {
        return Failure(TypeError);
      }
      var n := root.value;
      RootFacts();
      var (p, i) := LastPosition(n);
      LastPositionIsLast(n);
      GIndexAt(n, p, i);
      var it := NodeAt(n, p).elements[i];
      r := Success((it.key, it.value));
      assert Items()[|Items()| - 1] == it;
    }
  }

  /** Overwriting the value of a key the search found keeps the tree valid and performs the assignment. */
  lemma OverwriteFits<V>(n: Node<V>, h: nat, a: int, b: int, key: int, v: V)
    requires ValidRoot(Some(n), h, a, b, |Inorder(n)|) && Searchable(n)
    requires Found(NodeAt(n, SubtreeSearch(n, key).0), SubtreeSearch(n, key).1, key)
    ensures HasKey(Inorder(n), key)
    ensures var (p, i) := SubtreeSearch(n, key);
      && ValidRoot(Some(SetElement(n, p, i, Item(key, v))), h, a, b, |Inorder(n)|)
      && Inorder(SetElement(n, p, i, Item(key, v))) == Upsert(Inorder(n), key, v)
  {
    var (p, i) := SubtreeSearch(n, key);
    var node := NodeAt(n, p);
    SubtreeSearchLocates(n, key);
    LocateSplits(Inorder(n), key);
    UpsertSpec(Inorder(n), key, v);
    SetElementInorder(n, p, i, Item(key, v));
    ReplaceTree(n, p, Node(node.elements[i := Item(key, v)], node.children), h, 1, b - 1, a, b);
  }

  /** A key the search did not find goes to a leaf position where the assignment is an insertion. */
  lemma NewKeyPlaces<V>(n: Node<V>, key: int, v: V)
    requires Searchable(n) && SortedKeys(Inorder(n))
    requires !Found(NodeAt(n, SubtreeSearch(n, key).0), SubtreeSearch(n, key).1, key)
    ensures var (p, i) := SubtreeSearch(n, key);
      && InsertablePath(n, p, i, Item(key, v))
      && GIndex(n, p, i) <= |Inorder(n)|
      && ListInsert(Inorder(n), GIndex(n, p, i), Item(key, v)) == Upsert(Inorder(n), key, v)
  {
    var (p, i) := SubtreeSearch(n, key);
    InsertPlaces(n, p, i, Item(key, v));
    SubtreeSearchLocates(n, key);
  }

  /**
   * `_add_element` followed by `_rebalance_insert` on the whole tree: the new root, and whether
   * the old root overflowed and was split under a new root holding only its median.
   */
  function AddToRoot<V>(n: Node<V>, p: seq<nat>, i: nat, e: Item<V>, b: int): (r: (Node<V>, bool))
    requires b >= 1 && InsertablePath(n, p, i, e)
  {
    var (t, grew) := AddAt(n, p, i, e, b);
    if grew && |t.elements| >= b then
      (GrowRoot(t), true)
    else
      (t, false)
  }

  /**
   * `_add_element` and `_rebalance_insert` keep the tree valid and insert the item at its
   * position in the inorder visit; the tree grows by one level exactly when the root splits.
   */
  lemma AddElementFits<V>(n: Node<V>, h: nat, a: int, b: int, size: nat, p: seq<nat>, i: nat, e: Item<V>)
    requires ValidRoot(Some(n), h, a, b, size) && InsertablePath(n, p, i, e)
    ensures GIndex(n, p, i) <= size
    ensures var (r, grown) := AddToRoot(n, p, i, e, b);
      && ValidRoot(Some(r), if grown then h + 1 else h, a, b, size + 1)
      && Contents(Some(r)) == ListInsert(Contents(Some(n)), GIndex(n, p, i), e)
  {
    TreeAlong(n, h, 1, b - 1, a, b, p);
    InorderAround(n, p);
    InsertInside(ItemsBefore(n, p), NodeAt(n, p).elements, ItemsAfter(n, p), i, e);
    var (t, grew) := AddAt(n, p, i, e, b);
    AddAtFits(n, p, i, e, h, 1, a, b);
    if grew && |t.elements| >= b {
      TreeWiden(t, h, 1, b, b, b, a, b);
      GrowRootInorder(t, h, a, b);
    } else {
      TreeWiden(t, h, 1, b, 1, b - 1, a, b);
    }
  }

  /** Dropping an item keeps a sequence sorted. */
  lemma PopSorted<V>(s: seq<Item<V>>, g: nat)
    requires SortedKeys(s) && g < |s|
    ensures SortedKeys(ListPop(s, g))
  {
    var r := ListPop(s, g);
    forall u, w | 0 <= u < w < |r| ensures r[u].key < r[w].key {
      var u', w' := if u < g then u else u + 1, if w < g then w else w + 1;
      assert r[u] == s[u'] && r[w] == s[w'];
    }
  }

  /**
   * `_delete_element` and `_rebalance_delete` keep the tree valid and drop the item at its
   * position in the inorder visit: the root becomes None when no item remains, and a root
   * emptied by a fusion gives way to its only child, one level lower.
   */
  lemma DeleteElementFits<V>(n: Node<V>, h: nat, a: int, b: int, size: nat, p: seq<nat>, i: nat)
    requires ValidRoot(Some(n), h, a, b, size) && Balanced(n, Depth(n), a) && |n.elements| >= 1
    requires ValidPath(n, p) && i < |NodeAt(n, p).elements|
    ensures GIndex(n, p, i) < size
    ensures var (t, shrank) := DeleteAt(n, p, i, a);
      && |Inorder(t)| + 1 == size
      && Inorder(t) == ListPop(Contents(Some(n)), GIndex(n, p, i))
      && ValidRoot<V>(None, h, a, b, 0)
      && (size > 1 && shrank && |t.elements| < 1 ==>
            && !IsLeaf(t) && h > 0
            && ValidRoot(Some(t.children[0]), h - 1, a, b, size - 1)
            && Contents(Some(t.children[0])) == Inorder(t))
      && (size > 1 && !(shrank && |t.elements| < 1) ==> ValidRoot(Some(t), h, a, b, size - 1))
  {
    var (t, shrank) := DeleteAt(n, p, i, a);
    DeleteAtFits(n, p, i, h, a, b);
    PopSorted(Inorder(n), GIndex(n, p, i));
    if size > 1 {
      if shrank && |t.elements| < 1 {
        CollapseRoot(t, h, a, b);
      } else {
        TreeWiden(t, h, if shrank then 0 else 1, b - 1, 1, b - 1, a, b);
      }
    }
  }

  /**
   * A root left without elements but still holding items has exactly one child, one level
   * down, holding all of them: that child can take the root's place (abtree.py:231-236).
   */
  lemma CollapseRoot<V>(t: Node<V>, h: nat, a: int, b: int)
    requires ValidBounds(a, b) && Tree(t, h, 0, b - 1, a, b) && |t.elements| == 0
    requires |Inorder(t)| > 0 && SortedKeys(Inorder(t))
    ensures !IsLeaf(t) && h > 0
    ensures ValidRoot(Some(t.children[0]), h - 1, a, b, |Inorder(t)|)
    ensures Inorder(t.children[0]) == Inorder(t)
  {
    assert !IsLeaf(t);
    var c := t.children[0];
    assert Interleaved(t.elements, t.children) == [];
    TreeWiden(c, h - 1, a - 1, b - 1, 1, b - 1, a, b);
  }
}
