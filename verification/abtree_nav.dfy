/**
 * Navigation in the (a,b)-tree (project1/abtree/abtree.py): `child`, the first and last
 * position of a subtree, and the neighbours `after` and `before` of an element.
 *
 * A position is a path from the root; `_validate` accepts exactly the paths that still lead
 * to a node. The methods `after` and `before` are modelled twice: once as written, and once
 * with the behaviour their doc-comments promise (the neighbour in the inorder visit, found by
 * climbing to an ancestor at a leaf boundary).
 */
module ABTreeNav {
  import opened Wrappers
  import opened Exceptions
  import opened ABTreeNodes

  /** `child(p, i)`: ValueError for an invalid position, IndexError for an index outside the children. */
  function Child<V>(root: Node<V>, path: seq<nat>, i: int): (r: Result<seq<nat>, Error>)
    ensures !ValidPath(root, path) ==> r == Failure(ValueError)
    ensures ValidPath(root, path) ==>
              (r.Success? <==> 0 <= i < |NodeAt(root, path).children|) && (r.Failure? ==> r.error == IndexError)
    ensures r.Success? ==> ValidPath(root, r.value) && NodeAt(root, r.value) == NodeAt(root, path).children[i]
  {
    if !ValidPath(root, path) then Failure(ValueError)
    else if !(0 <= i <= |NodeAt(root, path).children| - 1) then Failure(IndexError)
    else
      PathConcat(root, path, [i]);
      Success(path + [i])
  }

  /** `_subtree_first_position(p)`: follow the first child down to a leaf, index 0. */
  function FirstPosition<V>(n: Node<V>): (r: (seq<nat>, nat))
    ensures ValidPath(n, r.0) && IsLeaf(NodeAt(n, r.0)) && r.1 == 0
    decreases n
  {
    if IsLeaf(n) then ([], 0)
    else
      var (p, i) := FirstPosition(n.children[0]);
      assert ([0] + p)[0] == 0 && ([0] + p)[1..] == p;
      ([0] + p, i)
  }

  /** `_subtree_last_position(p)`: follow the last child down to a leaf, its last index. */
  function LastPosition<V>(n: Node<V>): (r: (seq<nat>, int))
    ensures ValidPath(n, r.0) && IsLeaf(NodeAt(n, r.0)) && r.1 == |NodeAt(n, r.0).elements| - 1
    decreases n
  {
    if IsLeaf(n) then ([], |n.elements| - 1)
    else
      var k := |n.children| - 1;
      var (p, i) := LastPosition(n.children[k]);
      assert ([k] + p)[0] == k && ([k] + p)[1..] == p;
      ([k] + p, i)
  }

  /** The first position holds the smallest item of the subtree. */
  lemma {:induction false} FirstPositionIsFirst<V>(n: Node<V>)
    requires Searchable(n)
    ensures var (p, i) := FirstPosition(n);
      ShapedAlong(n, p) && Shaped(NodeAt(n, p)) && i < |NodeAt(n, p).elements| && GIndex(n, p, i) == 0
    decreases n
  {
    var (p, i) := FirstPosition(n);
    SearchableAlong(n, p);
    if !IsLeaf(n) {
      FirstPositionIsFirst(n.children[0]);
      var (q, _) := FirstPosition(n.children[0]);
      assert p == [0] + q && p[1..] == q;
      assert n.children[..0] == [];
    }
  }

  /** The last position holds the largest item of the subtree. */
  lemma {:induction false} LastPositionIsLast<V>(n: Node<V>)
    requires Searchable(n)
    ensures var (p, i) := LastPosition(n);
      && ShapedAlong(n, p) && Shaped(NodeAt(n, p)) && 0 <= i < |NodeAt(n, p).elements|
      && GIndex(n, p, i) == |Inorder(n)| - 1
    decreases n
  {
    var (p, i) := LastPosition(n);
    SearchableAlong(n, p);
    if !IsLeaf(n) {
      var k := |n.children| - 1;
      LastPositionIsLast(n.children[k]);
      var (q, _) := LastPosition(n.children[k]);
      assert p == [k] + q && p[1..] == q;
      WovenAt(n.elements, n.children, k);
    }
  }

  // ---------------------------------------------------------------------------
  // after / before as written (abtree.py:153-175)
  // ---------------------------------------------------------------------------

  /**
   * `after(p, i)` as written: the guard `not 0 >= i >= len - 1` rejects every index of a node
   * holding two or more elements, and at a leaf the conditional expression binds tighter than
   * the tuple, so the result is the pair `(None or p, i + 1)`.
   */
  function AfterAsWritten<V>(root: Node<V>, path: seq<nat>, i: int): (r: Result<(Option<seq<nat>>, int), Error>)
    ensures r == Failure(ValueError) <==> !ValidPath(root, path)
    ensures ValidPath(root, path) && |NodeAt(root, path).elements| >= 2 ==> r == Failure(IndexError)
    ensures ValidPath(root, path) && IsLeaf(NodeAt(root, path)) && |NodeAt(root, path).elements| == 1 ==>
      r == if i == 0 then Success((None, 1)) else Failure(IndexError)
  {
    if !ValidPath(root, path) then Failure(ValueError)
    else
      var node := NodeAt(root, path);
      if !(0 >= i >= |node.elements| - 1) then Failure(IndexError)
      else if IsLeaf(node) then Success((if i == |node.elements| - 1 then None else Some(path), i + 1))
      else if !(0 <= i + 1 <= |node.children| - 1) then Failure(IndexError)
      else
        var (q, k) := FirstPosition(node.children[i + 1]);
        Success((Some(path + [i + 1] + q), k))
  }

  /** `before(p, i)` as written: at a leaf the result is the pair `(None or p, i - 1)`. */
  function BeforeAsWritten<V>(root: Node<V>, path: seq<nat>, i: int): (r: Result<(Option<seq<nat>>, int), Error>)
    ensures r == Failure(ValueError) <==> !ValidPath(root, path)
    ensures ValidPath(root, path) && !(0 <= i < |NodeAt(root, path).elements|) ==> r == Failure(IndexError)
    ensures ValidPath(root, path) && IsLeaf(NodeAt(root, path)) && 0 <= i < |NodeAt(root, path).elements| ==>
      r.Success? && r.value.1 == i - 1 && (r.value.0.None? <==> i == 0)
  {
    if !ValidPath(root, path) then Failure(ValueError)
    else
      var node := NodeAt(root, path);
      if !(0 <= i <= |node.elements| - 1) then Failure(IndexError)
      else if IsLeaf(node) then Success((if i == 0 then None else Some(path), i - 1))
      else if !(0 <= i <= |node.children| - 1) then Failure(IndexError)
      else
        var (q, k) := LastPosition(node.children[i]);
        Success((Some(path + [i] + q), k))
  }

  /** The guard of `after` rejects every index of a node with two or more elements. */
  lemma AfterGuardRejects<V>(root: Node<V>, path: seq<nat>, i: int)
    requires ValidPath(root, path) && |NodeAt(root, path).elements| >= 2
    ensures AfterAsWritten(root, path, i) == Failure(IndexError)
  {
  }

  /** Counterexample: the first element of the leaf [1, 2], whose successor is 2. */
  lemma AfterGuardExample()
    ensures AfterAsWritten(Node([Item(1, 10), Item(2, 20)], []), [], 0) == Failure(IndexError)
    ensures PositionAfter(Node([Item(1, 10), Item(2, 20)], []), [], 0) == Success(Some(([], 1)))
  {
  }

  /**
   * Counterexample: in the tree with root [2] and leaves [1] and [3], `after` on the leaf [1]
   * answers `(None, 1)` and `before` on the leaf [3] answers `(None, -1)`, although the root
   * element 2 follows 1 and precedes 3.
   */
  lemma LeafBoundaryExample()
    ensures var t := Node([Item(2, 20)], [Node([Item(1, 10)], []), Node([Item(3, 30)], [])]);
      && AfterAsWritten(t, [0], 0) == Success((None, 1))
      && PositionAfter(t, [0], 0) == Success(Some(([], 0)))
      && BeforeAsWritten(t, [1], 0) == Success((None, -1))
      && PositionBefore(t, [1], 0) == Success(Some(([], 0)))
  {
    var t := Node([Item(2, 20)], [Node([Item(1, 10)], []), Node([Item(3, 30)], [])]);
    assert NextUp(t.children[0], []) == None;
    assert PrevUp(t.children[1], []) == None;
    assert [0][1..] == [] && [1][1..] == [];
  }

  // ---------------------------------------------------------------------------
  // after / before as documented
  // ---------------------------------------------------------------------------

  /** The nearest ancestor element that follows the subtree at `path`. */
  function NextUp<V>(n: Node<V>, path: seq<nat>): Option<(seq<nat>, nat)>
    requires ValidPath(n, path)
    decreases path
  {
    if path == [] then None
    else
      match NextUp(n.children[path[0]], path[1..])
      case Some((q, k)) => Some(([path[0]] + q, k))
      case None => if path[0] < |n.elements| then Some(([], path[0])) else None
  }

  /** The nearest ancestor element that precedes the subtree at `path`. */
  function PrevUp<V>(n: Node<V>, path: seq<nat>): Option<(seq<nat>, nat)>
    requires ValidPath(n, path)
    decreases path
  {
    if path == [] then None
    else
      match PrevUp(n.children[path[0]], path[1..])
      case Some((q, k)) => Some(([path[0]] + q, k))
      case None => if 0 < path[0] <= |n.elements| then Some(([], path[0] - 1)) else None
  }

  /** The element found by climbing is the first item after the subtree at `path`, if there is one. */
  lemma {:induction false} NextUpIsNext<V>(n: Node<V>, path: seq<nat>)
    requires Searchable(n) && ValidPath(n, path)
    ensures NextUp(n, path).None? <==> ItemsAfter(n, path) == []
    ensures NextUp(n, path).Some? ==>
              var (q, k) := NextUp(n, path).value;
              && ValidPath(n, q) && Shaped(NodeAt(n, q)) && k < |NodeAt(n, q).elements|
              && GIndex(n, q, k) == |ItemsBefore(n, path)| + |Inorder(NodeAt(n, path))|
    decreases path
  {
    if path != [] {
      var j := path[0];
      var c := n.children[j];
      NextUpIsNext(c, path[1..]);
      SearchableAlong(c, path[1..]);
      InorderAround(c, path[1..]);
      match NextUp(c, path[1..])
      case Some((q, k)) =>
        assert ([j] + q)[0] == j && ([j] + q)[1..] == q;
        SearchableAlong(c, q);
      case None =>
        if j < |n.elements| {
          WovenAt(n.elements, n.children, j);
          SuffixShift(n.elements, n.children, j);
        }
    }
  }

  /** The element found by climbing is the last item before the subtree at `path`, if there is one. */
  lemma {:induction false} PrevUpIsPrev<V>(n: Node<V>, path: seq<nat>)
    requires Searchable(n) && ValidPath(n, path)
    ensures PrevUp(n, path).None? <==> ItemsBefore(n, path) == []
    ensures PrevUp(n, path).Some? ==>
              var (q, k) := PrevUp(n, path).value;
              && ValidPath(n, q) && Shaped(NodeAt(n, q)) && k < |NodeAt(n, q).elements|
              && GIndex(n, q, k) == |ItemsBefore(n, path)| - 1
    decreases path
  {
    if path != [] {
      var j := path[0];
      var c := n.children[j];
      PrevUpIsPrev(c, path[1..]);
      match PrevUp(c, path[1..])
      case Some((q, k)) =>
        assert ([j] + q)[0] == j && ([j] + q)[1..] == q;
        SearchableAlong(c, q);
      case None =>
        if j > 0 {
          InterleavedStep(n.elements, n.children, j);
        } else {
          assert n.children[..0] == [];
        }
    }
  }

  /** `after(p, i)` as documented: the position of the next item in the inorder visit, or None. */
  function PositionAfter<V>(root: Node<V>, path: seq<nat>, i: int): (r: Result<Option<(seq<nat>, nat)>, Error>)
    ensures r == Failure(ValueError) <==> !ValidPath(root, path)
    ensures ValidPath(root, path) && !(0 <= i < |NodeAt(root, path).elements|) ==> r == Failure(IndexError)
    ensures ValidPath(root, path) && IsLeaf(NodeAt(root, path)) && 0 <= i < |NodeAt(root, path).elements| ==>
      r.Success? && (i + 1 < |NodeAt(root, path).elements| ==> r.value == Some((path, i + 1)))
  {
    if !ValidPath(root, path) then Failure(ValueError)
    else
      var node := NodeAt(root, path);
      if !(0 <= i <= |node.elements| - 1) then Failure(IndexError)
      else
        var next: nat := i + 1;
        if IsLeaf(node) then
          if next < |node.elements| then Success(Some((path, next))) else Success(NextUp(root, path))
        else if !(next <= |node.children| - 1) then Failure(IndexError)
        else
          var (q, k) := FirstPosition(node.children[next]);
          Success(Some((path + [next] + q, k)))
  }

  /** `before(p, i)` as documented: the position of the previous item in the inorder visit, or None. */
  function PositionBefore<V>(root: Node<V>, path: seq<nat>, i: int): (r: Result<Option<(seq<nat>, nat)>, Error>)
    ensures r == Failure(ValueError) <==> !ValidPath(root, path)
    ensures ValidPath(root, path) && !(0 <= i < |NodeAt(root, path).elements|) ==> r == Failure(IndexError)
    ensures ValidPath(root, path) && IsLeaf(NodeAt(root, path)) && 0 <= i < |NodeAt(root, path).elements| ==>
      r.Success? && (i > 0 ==> r.value == Some((path, i - 1)))
  {
    if !ValidPath(root, path) then Failure(ValueError)
    else
      var node := NodeAt(root, path);
      if !(0 <= i <= |node.elements| - 1) then Failure(IndexError)
      else
        var j: nat := i;
        if IsLeaf(node) then
          if j > 0 then Success(Some((path, j - 1))) else Success(PrevUp(root, path))
        else if !(j <= |node.children| - 1) then Failure(IndexError)
        else
          var (q, k) := LastPosition(node.children[j]);
          // k < 0 only below an element-less leaf, which no searchable tree has (see
          // `NeighbourErrors`); no source line raises here: `_subtree_last_position` would hand back
          // index -1, which a position's `nat` index cannot hold, so the model answers IndexError,
          // as indexing that empty leaf's list would.
          if k < 0 then Failure(IndexError) else Success(Some((path + [j] + q, k as nat)))
  }

  /** Both neighbour queries fail with IndexError exactly for an index outside the node. */
  lemma NeighbourErrors<V>(root: Node<V>, path: seq<nat>, i: int)
    requires Searchable(root) && ValidPath(root, path)
    ensures PositionAfter(root, path, i).Failure? <==> !(0 <= i < |NodeAt(root, path).elements|)
    ensures PositionBefore(root, path, i).Failure? <==> !(0 <= i < |NodeAt(root, path).elements|)
  {
    SearchableAlong(root, path);
    var node := NodeAt(root, path);
    if !IsLeaf(node) && 0 <= i < |node.elements| {
      LastPositionIsLast(node.children[i]);
    }
  }

  /** At an internal node the successor of element `i` is the first item of child `i + 1`. */
  lemma AfterInternal<V>(root: Node<V>, path: seq<nat>, i: nat)
    requires Searchable(root) && ValidPath(root, path)
    requires !IsLeaf(NodeAt(root, path)) && i < |NodeAt(root, path).elements|
    ensures var node := NodeAt(root, path);
      && i + 1 < |node.children|
      && var (q, k) := FirstPosition(node.children[i + 1]);
      && ValidPath(root, path + [i + 1] + q)
      && GIndex(root, path + [i + 1] + q, k) == GIndex(root, path, i) + 1
  {
    var node := NodeAt(root, path);
    var c := node.children[i + 1];
    var P := path + [i + 1];
    NextChildStart(root, path, i);
    FirstPositionIsFirst(c);
    var (q, k) := FirstPosition(c);
    GIndexConcat(root, P, q, k);
  }

  /** Child `i + 1` of an internal node starts right after element `i`. */
  lemma NextChildStart<V>(root: Node<V>, path: seq<nat>, i: nat)
    requires Searchable(root) && ValidPath(root, path)
    requires !IsLeaf(NodeAt(root, path)) && i < |NodeAt(root, path).elements|
    ensures i + 1 < |NodeAt(root, path).children|
    ensures ValidPath(root, path + [i + 1]) && NodeAt(root, path + [i + 1]) == NodeAt(root, path).children[i + 1]
    ensures Searchable(NodeAt(root, path).children[i + 1])
    ensures |ItemsBefore(root, path + [i + 1])| == GIndex(root, path, i) + 1
  {
    SearchableAlong(root, path);
    var node := NodeAt(root, path);
    ChildPath(root, path, i + 1);
    ElementIndexNext(node, i);
  }

  /** At an internal node the predecessor of element `i` is the last item of child `i`. */
  lemma BeforeInternal<V>(root: Node<V>, path: seq<nat>, i: nat)
    requires Searchable(root) && ValidPath(root, path)
    requires !IsLeaf(NodeAt(root, path)) && i < |NodeAt(root, path).elements|
    ensures var node := NodeAt(root, path);
      && i < |node.children|
      && var (q, k) := LastPosition(node.children[i]);
      && ValidPath(root, path + [i] + q) && k >= 0
      && GIndex(root, path + [i] + q, k) + 1 == GIndex(root, path, i)
  {
    SearchableAlong(root, path);
    var node := NodeAt(root, path);
    var c := node.children[i];
    var P := path + [i];
    ChildPath(root, path, i);
    assert |ItemsBefore(root, P)| + |Inorder(c)| == GIndex(root, path, i);
    LastPositionIsLast(c);
    var (q, k) := LastPosition(c);
    GIndexConcat(root, P, q, k);
  }

  /** A position found as a neighbour lies inside the tree and names one of its items. */
  lemma NeighbourInside<V>(root: Node<V>, q: seq<nat>, k: nat)
    requires Searchable(root) && ValidPath(root, q)
    requires k < |NodeAt(root, q).elements|
    ensures Shaped(NodeAt(root, q)) && GIndex(root, q, k) < |Inorder(root)|
  {
    SearchableAlong(root, q);
    GIndexAt(root, q, k);
  }

  /** `after` finds the item that follows element `i` in the inorder visit, and None after the last one. */
  lemma PositionAfterIsNext<V>(root: Node<V>, path: seq<nat>, i: nat)
    requires Searchable(root) && ValidPath(root, path) && i < |NodeAt(root, path).elements|
    ensures PositionAfter(root, path, i).Success?
    ensures var r := PositionAfter(root, path, i).value;
      && (r.None? <==> GIndex(root, path, i) == |Inorder(root)| - 1)
      && (r.Some? ==>
            && ValidPath(root, r.value.0) && Shaped(NodeAt(root, r.value.0))
            && r.value.1 < |NodeAt(root, r.value.0).elements|
            && GIndex(root, r.value.0, r.value.1) == GIndex(root, path, i) + 1)
  {
    SearchableAlong(root, path);
    var node := NodeAt(root, path);
    if IsLeaf(node) && i < |node.elements| - 1 {
      NeighbourInside(root, path, i + 1);
    } else if IsLeaf(node) {
      AfterLeafEnd(root, path, i);
    } else {
      AfterInternalNext(root, path, i);
    }
  }

  /** `PositionAfterIsNext` for the last element of a leaf: the answer is up the path. */
  lemma AfterLeafEnd<V>(root: Node<V>, path: seq<nat>, i: nat)
    requires Searchable(root) && ValidPath(root, path) && i < |NodeAt(root, path).elements|
    requires IsLeaf(NodeAt(root, path)) && i == |NodeAt(root, path).elements| - 1
    ensures PositionAfter(root, path, i).Success?
    ensures var r := PositionAfter(root, path, i).value;
      && (r.None? <==> GIndex(root, path, i) == |Inorder(root)| - 1)
      && (r.Some? ==>
            && ValidPath(root, r.value.0) && Shaped(NodeAt(root, r.value.0))
            && r.value.1 < |NodeAt(root, r.value.0).elements|
            && GIndex(root, r.value.0, r.value.1) == GIndex(root, path, i) + 1)
  {
    SearchableAlong(root, path);
    NextUpIsNext(root, path);
    InorderAround(root, path);
    match NextUp(root, path)
    case Some((q, k)) =>
      NeighbourInside(root, q, k);
    case None =>
  }

  /** `PositionAfterIsNext` for an internal node: the answer is the first item of the next child. */
  lemma AfterInternalNext<V>(root: Node<V>, path: seq<nat>, i: nat)
    requires Searchable(root) && ValidPath(root, path) && i < |NodeAt(root, path).elements|
    requires !IsLeaf(NodeAt(root, path))
    ensures PositionAfter(root, path, i).Success?
    ensures var r := PositionAfter(root, path, i).value;
      && (r.None? <==> GIndex(root, path, i) == |Inorder(root)| - 1)
      && (r.Some? ==>
            && ValidPath(root, r.value.0) && Shaped(NodeAt(root, r.value.0))
            && r.value.1 < |NodeAt(root, r.value.0).elements|
            && GIndex(root, r.value.0, r.value.1) == GIndex(root, path, i) + 1)
  {
    SearchableAlong(root, path);
    var node := NodeAt(root, path);
    AfterInternal(root, path, i);
    var (q, k) := FirstPosition(node.children[i + 1]);
    FirstPositionIsFirst(node.children[i + 1]);
    PathConcat(root, path, [i + 1]);
    ChildPath(root, path, i + 1);
    PathConcat(root, path + [i + 1], q);
    NeighbourInside(root, path + [i + 1] + q, k);
  }

  /** `before` finds the item that precedes element `i` in the inorder visit, and None before the first one. */
  lemma PositionBeforeIsPrev<V>(root: Node<V>, path: seq<nat>, i: nat)
    requires Searchable(root) && ValidPath(root, path) && i < |NodeAt(root, path).elements|
    ensures PositionBefore(root, path, i).Success?
    ensures var r := PositionBefore(root, path, i).value;
      && (r.None? <==> GIndex(root, path, i) == 0)
      && (r.Some? ==>
            && ValidPath(root, r.value.0) && Shaped(NodeAt(root, r.value.0))
            && r.value.1 < |NodeAt(root, r.value.0).elements|
            && GIndex(root, r.value.0, r.value.1) + 1 == GIndex(root, path, i))
  {
    SearchableAlong(root, path);
    var node := NodeAt(root, path);
    if IsLeaf(node) {
      if i == 0 {
        PrevUpIsPrev(root, path);
        match PrevUp(root, path)
        case Some((q, k)) =>
          SearchableAlong(root, q);
        case None =>
      } else {
        SearchableAlong(root, path);
      }
    } else {
      BeforeInternal(root, path, i);
      var (q, k) := LastPosition(node.children[i]);
      LastPositionIsLast(node.children[i]);
      ChildPath(root, path, i);
      PathConcat(root, path + [i], q);
      SearchableAlong(root, path + [i] + q);
    }
  }
}
