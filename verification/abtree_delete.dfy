/**
 * Deletion in the (a,b)-tree (project1/abtree/abtree.py): `_transfer`, `_fusion`,
 * `_rebalance_delete` and `_delete_element`.
 *
 * The source repairs an underflow by walking up parent links; here the walk is the
 * return path of a recursion along the position of the removed item. Each level returns its
 * new node and whether `_rebalance_delete` is to look at it (the leaf that lost an item, or a
 * node that lost an element to a fusion below it).
 */
module ABTreeDelete {
  import opened Wrappers
  import opened ABTreeNodes
  import opened ABTreeNav

  // ---------------------------------------------------------------------------
  // _transfer (abtree.py:258-280)
  // ---------------------------------------------------------------------------

  /**
   * The clockwise branch of `_transfer` on the siblings `left` and `right` around separator `s`:
   * the last item of `left` goes up, `s` comes down to the front of `right`, and when `left`
   * is internal its last child moves to the front of `right`'s children.
   */
  function RotateRight<V>(left: Node<V>, s: Item<V>, right: Node<V>): (r: (Node<V>, Item<V>, Node<V>))
    requires |left.elements| > 0
    ensures |r.0.elements| + 1 == |left.elements| && |r.2.elements| == |right.elements| + 1
    ensures r.1 == left.elements[|left.elements| - 1] && r.2.elements[0] == s
  {
    var k := |left.elements| - 1;
    if IsLeaf(left) then
      (Node(left.elements[..k], left.children), left.elements[k], Node([s] + right.elements, right.children))
    else
      var m := |left.children| - 1;
      (Node(left.elements[..k], left.children[..m]), left.elements[k],
       Node([s] + right.elements, [left.children[m]] + right.children))
  }

  /**
   * The counter-clockwise branch of `_transfer`: the first item of `right` goes up, `s` is
   * appended to `left`, and when `right` is internal its first child moves to the end of `left`.
   */
  function RotateLeft<V>(left: Node<V>, s: Item<V>, right: Node<V>): (r: (Node<V>, Item<V>, Node<V>))
    requires |right.elements| > 0
    ensures |r.0.elements| == |left.elements| + 1 && |r.2.elements| + 1 == |right.elements|
    ensures r.1 == right.elements[0] && r.0.elements[|left.elements|] == s
  {
    if IsLeaf(right) then
      (Node(left.elements + [s], left.children), right.elements[0], Node(right.elements[1..], right.children))
    else
      (Node(left.elements + [s], left.children + [right.children[0]]), right.elements[0],
       Node(right.elements[1..], right.children[1..]))
  }

  /** `_transfer(p, r_index, l_index, clockwise)` on the node `n` of `p`. */
  function Transfer<V>(n: Node<V>, rIndex: nat, lIndex: nat, clockwise: bool): (r: Node<V>)
    requires rIndex == lIndex + 1 && lIndex < |n.elements| && rIndex < |n.children|
    requires clockwise ==> |n.children[lIndex].elements| > 0
    requires !clockwise ==> |n.children[rIndex].elements| > 0
    ensures |r.elements| == |n.elements| && |r.children| == |n.children|
    ensures forall t :: 0 <= t < |n.children| && t != lIndex && t != rIndex ==> r.children[t] == n.children[t]
    ensures forall t :: 0 <= t < |n.elements| && t != lIndex ==> r.elements[t] == n.elements[t]
    ensures clockwise ==>
              && |r.children[lIndex].elements| + 1 == |n.children[lIndex].elements|
              && |r.children[rIndex].elements| == |n.children[rIndex].elements| + 1
    ensures !clockwise ==>
              && |r.children[lIndex].elements| == |n.children[lIndex].elements| + 1
              && |r.children[rIndex].elements| + 1 == |n.children[rIndex].elements|
  {
    var (left, x, right) :=
      if clockwise then RotateRight(n.children[lIndex], n.elements[lIndex], n.children[rIndex])
      else RotateLeft(n.children[lIndex], n.elements[lIndex], n.children[rIndex]);
    Node(n.elements[lIndex := x], n.children[lIndex := left][rIndex := right])
  }

  /** The last item of a node, and the node without it. */
  lemma WovenLast<V>(es: seq<Item<V>>, cs: seq<Node<V>>)
    requires |cs| == |es| + 1 && |es| >= 1
    ensures Woven(es, cs) == Woven(es[..|es| - 1], cs[..|cs| - 1]) + [es[|es| - 1]] + Inorder(cs[|cs| - 1])
  {
    var k := |es| - 1;
    var es1, cs1, c := es[..k], cs[..k + 1], cs[k + 1];
    SplitLast(es);
    SplitLast(cs);
    assert es1 + [es[k]] + [] == es;
    WovenConcat(es1, cs1, es[k], [], [c]);
    assert Woven([], [c]) == Inorder(c);
  }

  /** A node with one more element and child at its end. */
  lemma WovenSnoc<V>(es: seq<Item<V>>, cs: seq<Node<V>>, s: Item<V>, c: Node<V>)
    requires |cs| == |es| + 1
    ensures Woven(es + [s], cs + [c]) == Woven(es, cs) + [s] + Inorder(c)
  {
    WovenConcat(es, cs, s, [], [c]);
    assert es + [s] + [] == es + [s];
    assert Woven([], [c]) == Inorder(c);
  }

  /** The clockwise rotation keeps the items of the two siblings and the separator, in order. */
  lemma RotateRightInorder<V>(left: Node<V>, s: Item<V>, right: Node<V>)
    requires |left.elements| > 0 && Shaped(left) && Shaped(right) && IsLeaf(left) == IsLeaf(right)
    ensures var (l, x, r) := RotateRight(left, s, right);
      && Shaped(l) && Shaped(r) && IsLeaf(l) == IsLeaf(left) && IsLeaf(r) == IsLeaf(right)
      && Inorder(l) + [x] + Inorder(r) == Inorder(left) + [s] + Inorder(right)
  {
    var k := |left.elements| - 1;
    var (l, x, r) := RotateRight(left, s, right);
    if IsLeaf(left) {
      assert left.elements[..k] + [left.elements[k]] == left.elements;
    } else {
      WovenLast(left.elements, left.children);
      var c := left.children[k + 1];
      WovenCons([s] + right.elements, [c] + right.children);
      assert ([s] + right.elements)[1..] == right.elements;
      assert ([c] + right.children)[1..] == right.children;
    }
  }

  /** The counter-clockwise rotation keeps the items of the two siblings and the separator, in order. */
  lemma RotateLeftInorder<V>(left: Node<V>, s: Item<V>, right: Node<V>)
    requires |right.elements| > 0 && Shaped(left) && Shaped(right) && IsLeaf(left) == IsLeaf(right)
    ensures var (l, x, r) := RotateLeft(left, s, right);
      && Shaped(l) && Shaped(r) && IsLeaf(l) == IsLeaf(left) && IsLeaf(r) == IsLeaf(right)
      && Inorder(l) + [x] + Inorder(r) == Inorder(left) + [s] + Inorder(right)
  {
    if IsLeaf(right) {
      assert [right.elements[0]] + right.elements[1..] == right.elements;
    } else {
      WovenSnoc(left.elements, left.children, s, right.children[0]);
      WovenCons(right.elements, right.children);
    }
  }

  /** Replacing the two children beside element `l` and the element itself. */
  lemma InorderReplacePair<V>(es: seq<Item<V>>, cs: seq<Node<V>>, l: nat, left: Node<V>, x: Item<V>, right: Node<V>)
    requires |cs| == |es| + 1 && l < |es|
    ensures Inorder(Node(es[l := x], cs[l := left][l + 1 := right]))
         == Interleaved(es, cs[..l]) + Inorder(left) + [x] + Inorder(right) + SuffixItems(es, cs, l + 1)
  {
    var es', cs' := es[l := x], cs[l := left][l + 1 := right];
    WovenPair(es', cs', l);
    assert cs'[..l] == cs[..l];
    InterleavedSame(es', es, cs[..l]);
    assert es'[l + 1..] == es[l + 1..] && cs'[l + 2..] == cs[l + 2..];
    SuffixShiftBoth(es, cs, es', cs', l + 1);
  }

  /** Two nodes that agree from position `j` on have the same suffix after child `j`. */
  lemma SuffixShiftBoth<V>(es: seq<Item<V>>, cs: seq<Node<V>>, es': seq<Item<V>>, cs': seq<Node<V>>, j: nat)
    requires j <= |es| && j < |cs| && |es'| == |es| && |cs'| == |cs|
    requires es'[j..] == es[j..] && cs'[j + 1..] == cs[j + 1..]
    ensures SuffixItems(es', cs', j) == SuffixItems(es, cs, j)
  {
    if j < |es| && j + 1 < |cs| {
      assert es'[j] == es'[j..][0] && es[j] == es[j..][0];
      assert es'[j + 1..] == es'[j..][1..] && es[j + 1..] == es[j..][1..];
    }
  }

  /** A transfer between siblings of the same level keeps the inorder visit of the parent. */
  lemma TransferInorder<V>(n: Node<V>, rIndex: nat, lIndex: nat, clockwise: bool)
    requires rIndex == lIndex + 1 && lIndex < |n.elements| && |n.children| == |n.elements| + 1
    requires clockwise ==> |n.children[lIndex].elements| > 0
    requires !clockwise ==> |n.children[rIndex].elements| > 0
    requires Shaped(n.children[lIndex]) && Shaped(n.children[rIndex])
    requires IsLeaf(n.children[lIndex]) == IsLeaf(n.children[rIndex])
    ensures Inorder(Transfer(n, rIndex, lIndex, clockwise)) == Inorder(n)
    ensures Shaped(Transfer(n, rIndex, lIndex, clockwise).children[lIndex])
    ensures Shaped(Transfer(n, rIndex, lIndex, clockwise).children[rIndex])
    ensures IsLeaf(Transfer(n, rIndex, lIndex, clockwise).children[lIndex]) == IsLeaf(n.children[lIndex])
    ensures IsLeaf(Transfer(n, rIndex, lIndex, clockwise).children[rIndex]) == IsLeaf(n.children[rIndex])
  {
    var es, cs := n.elements, n.children;
    var (left, x, right) :=
      if clockwise then RotateRight(cs[lIndex], es[lIndex], cs[rIndex])
      else RotateLeft(cs[lIndex], es[lIndex], cs[rIndex]);
    if clockwise {
      RotateRightInorder(cs[lIndex], es[lIndex], cs[rIndex]);
    } else {
      RotateLeftInorder(cs[lIndex], es[lIndex], cs[rIndex]);
    }
    InorderReplacePair(es, cs, lIndex, left, x, right);
    WovenPair(es, cs, lIndex);
    SameMiddle(Interleaved(es, cs[..lIndex]), Inorder(left), [x], Inorder(right),
               Inorder(cs[lIndex]), [es[lIndex]], Inorder(cs[rIndex]), SuffixItems(es, cs, lIndex + 1));
  }

  // ---------------------------------------------------------------------------
  // _fusion (abtree.py:282-298)
  // ---------------------------------------------------------------------------

  /** The node `_fusion` builds from children `index` and `index + 1` and the element between them. */
  function Fused<V>(n: Node<V>, index: nat): (r: Node<V>)
    requires index < |n.elements| && index + 1 < |n.children|
    ensures |r.elements| == |n.children[index].elements| + 1 + |n.children[index + 1].elements|
    ensures |r.children| == |n.children[index].children| + |n.children[index + 1].children|
  {
    var left, right := n.children[index], n.children[index + 1];
    Node(left.elements + [n.elements[index]] + right.elements, left.children + right.children)
  }

  /** `_fusion(p, index)` on the node `n` of `p`, before it calls `_rebalance_delete(p)`. */
  function Fusion<V>(n: Node<V>, index: nat): (r: Node<V>)
    requires index < |n.elements| && index + 1 < |n.children|
    ensures |r.elements| + 1 == |n.elements| && |r.children| + 1 == |n.children|
    ensures forall t :: 0 <= t < index ==> r.children[t] == n.children[t] && r.elements[t] == n.elements[t]
    ensures forall t :: index < t < |r.children| ==> r.children[t] == n.children[t + 1]
    ensures forall t :: index <= t < |r.elements| ==> r.elements[t] == n.elements[t + 1]
    ensures r.children[index] == Fused(n, index)
  {
    Node(ListPop(n.elements, index), ListPop(n.children[index := Fused(n, index)], index + 1))
  }

  /** The fused node holds the items of both children and the separator, in order. */
  lemma FusedInorder<V>(n: Node<V>, index: nat)
    requires index < |n.elements| && index + 1 < |n.children|
    requires Shaped(n.children[index]) && Shaped(n.children[index + 1])
    requires IsLeaf(n.children[index]) == IsLeaf(n.children[index + 1])
    ensures Shaped(Fused(n, index)) && IsLeaf(Fused(n, index)) == IsLeaf(n.children[index])
    ensures Inorder(Fused(n, index)) == Inorder(n.children[index]) + [n.elements[index]] + Inorder(n.children[index + 1])
  {
    var left, right := n.children[index], n.children[index + 1];
    if !IsLeaf(left) {
      WovenConcat(left.elements, left.children, n.elements[index], right.elements, right.children);
    }
  }

  /** A fusion of two siblings of the same level keeps the inorder visit of the parent. */
  lemma FusionInorder<V>(n: Node<V>, index: nat)
    requires index < |n.elements| && |n.children| == |n.elements| + 1
    requires Shaped(n.children[index]) && Shaped(n.children[index + 1])
    requires IsLeaf(n.children[index]) == IsLeaf(n.children[index + 1])
    ensures Inorder(Fusion(n, index)) == Inorder(n)
  {
    var es, cs := n.elements, n.children;
    var f := Fused(n, index);
    var r := Fusion(n, index);
    FusedInorder(n, index);
    WovenPair(es, cs, index);
    WovenAt(r.elements, r.children, index);
    assert r.children[..index] == cs[..index];
    InterleavedSame(r.elements, es, cs[..index]);
    FusionSuffix(n, index);
    Splice(Interleaved(es, cs[..index]), Inorder(cs[index]), [es[index]], Inorder(cs[index + 1]), SuffixItems(es, cs, index + 1));
  }

  /** After a fusion, what follows the fused child is what followed the right child. */
  lemma FusionSuffix<V>(n: Node<V>, index: nat)
    requires index < |n.elements| && |n.children| == |n.elements| + 1
    ensures SuffixItems(Fusion(n, index).elements, Fusion(n, index).children, index)
         == SuffixItems(n.elements, n.children, index + 1)
  {
    var r := Fusion(n, index);
    if index < |r.elements| {
      assert r.elements[index + 1..] == n.elements[index + 2..];
      assert r.children[index + 1..] == n.children[index + 2..];
    }
  }

  // ---------------------------------------------------------------------------
  // Fill bounds of transfer and fusion
  // ---------------------------------------------------------------------------

  /** Loosening the bounds on the number of elements of the top node. */
  lemma TreeWiden<V>(n: Node<V>, h: nat, lo: int, hi: int, lo': int, hi': int, a: int, b: int)
    requires Tree(n, h, lo, hi, a, b) && lo' <= |n.elements| <= hi'
    ensures Tree(n, h, lo', hi', a, b)
  {
  }

  /** The clockwise rotation moves one element of fill from `left` to `right` and keeps them balanced. */
  lemma RotateRightFits<V>(left: Node<V>, s: Item<V>, right: Node<V>, h: nat,
                           lo1: int, hi1: int, lo2: int, hi2: int, a: int, b: int)
    requires |left.elements| > 0 && Tree(left, h, lo1, hi1, a, b) && Tree(right, h, lo2, hi2, a, b)
    ensures var (l, x, r) := RotateRight(left, s, right);
      Tree(l, h, lo1 - 1, hi1 - 1, a, b) && Tree(r, h, lo2 + 1, hi2 + 1, a, b)
  {
    var (l, x, r) := RotateRight(left, s, right);
    if h > 0 {
      var m := |left.children| - 1;
      assert l.children == left.children[..m];
      assert r.children == [left.children[m]] + right.children;
      forall t | 0 <= t < |r.children| ensures Tree(r.children[t], h - 1, a - 1, b - 1, a, b) {
        if t > 0 {
          assert r.children[t] == right.children[t - 1];
        }
      }
    }
  }

  /** The counter-clockwise rotation moves one element of fill from `right` to `left` and keeps them balanced. */
  lemma RotateLeftFits<V>(left: Node<V>, s: Item<V>, right: Node<V>, h: nat,
                          lo1: int, hi1: int, lo2: int, hi2: int, a: int, b: int)
    requires |right.elements| > 0 && Tree(left, h, lo1, hi1, a, b) && Tree(right, h, lo2, hi2, a, b)
    ensures var (l, x, r) := RotateLeft(left, s, right);
      Tree(l, h, lo1 + 1, hi1 + 1, a, b) && Tree(r, h, lo2 - 1, hi2 - 1, a, b)
  {
    var (l, x, r) := RotateLeft(left, s, right);
    if h > 0 {
      assert l.children == left.children + [right.children[0]];
      assert r.children == right.children[1..];
      forall t | 0 <= t < |l.children| ensures Tree(l.children[t], h - 1, a - 1, b - 1, a, b) {
        if t == |left.children| {
          assert l.children[t] == right.children[0];
        }
      }
      forall t | 0 <= t < |r.children| ensures Tree(r.children[t], h - 1, a - 1, b - 1, a, b) {
        assert r.children[t] == right.children[t + 1];
      }
    }
  }

  /**
   * A transfer from a sibling holding at least `a` elements to a child holding `a - 2` leaves every
   * child of the parent between `a - 1` and `b - 1` elements.
   */
  lemma TransferFits<V>(n: Node<V>, rIndex: nat, lIndex: nat, clockwise: bool, h: nat, a: int, b: int)
    requires 2 <= a <= b && h >= 1
    requires rIndex == lIndex + 1 && lIndex < |n.elements| && |n.children| == |n.elements| + 1
    requires forall t :: 0 <= t < |n.children| && t != lIndex && t != rIndex ==> Tree(n.children[t], h - 1, a - 1, b - 1, a, b)
    requires var (donor, receiver) := if clockwise then (lIndex, rIndex) else (rIndex, lIndex);
      Tree(n.children[donor], h - 1, a, b - 1, a, b) && Tree(n.children[receiver], h - 1, a - 2, a - 2, a, b)
    ensures var r := Transfer(n, rIndex, lIndex, clockwise);
      forall t :: 0 <= t < |r.children| ==> Tree(r.children[t], h - 1, a - 1, b - 1, a, b)
  {
    var r := Transfer(n, rIndex, lIndex, clockwise);
    var left, right := r.children[lIndex], r.children[rIndex];
    if clockwise {
      RotateRightFits(n.children[lIndex], n.elements[lIndex], n.children[rIndex], h - 1, a, b - 1, a - 2, a - 2, a, b);
      TreeWiden(left, h - 1, a - 1, b - 2, a - 1, b - 1, a, b);
      TreeWiden(right, h - 1, a - 1, a - 1, a - 1, b - 1, a, b);
    } else {
      RotateLeftFits(n.children[lIndex], n.elements[lIndex], n.children[rIndex], h - 1, a - 2, a - 2, a, b - 1, a, b);
      TreeWiden(left, h - 1, a - 1, a - 1, a - 1, b - 1, a, b);
      TreeWiden(right, h - 1, a - 1, b - 2, a - 1, b - 1, a, b);
    }
  }

  /** The fused node is as deep as the two children, with their fill and one element more. */
  lemma FusedFits<V>(n: Node<V>, index: nat, h: nat, lo1: int, hi1: int, lo2: int, hi2: int, a: int, b: int)
    requires index < |n.elements| && index + 1 < |n.children|
    requires Tree(n.children[index], h, lo1, hi1, a, b) && Tree(n.children[index + 1], h, lo2, hi2, a, b)
    ensures Tree(Fused(n, index), h, lo1 + lo2 + 1, hi1 + hi2 + 1, a, b)
  {
    var left, right := n.children[index], n.children[index + 1];
    var f := Fused(n, index);
    if h > 0 {
      forall t | 0 <= t < |f.children| ensures Tree(f.children[t], h - 1, a - 1, b - 1, a, b) {
        if t < |left.children| {
          assert f.children[t] == left.children[t];
        } else {
          assert f.children[t] == right.children[t - |left.children|];
        }
      }
    }
  }

  /**
   * A fusion of a child holding `a - 2` elements with a sibling holding `a - 1` gives a node of
   * `2a - 2` elements, which the constructor bound `a <= (b + 1) / 2` keeps within `b - 1`.
   */
  lemma FusionFits<V>(n: Node<V>, index: nat, h: nat, lo1: int, hi1: int, lo2: int, hi2: int, a: int, b: int)
    requires h >= 1 && index < |n.elements| && |n.children| == |n.elements| + 1
    requires a - 1 <= lo1 + lo2 + 1 && hi1 + hi2 + 1 <= b - 1
    requires forall t :: 0 <= t < |n.children| && t != index && t != index + 1 ==> Tree(n.children[t], h - 1, a - 1, b - 1, a, b)
    requires Tree(n.children[index], h - 1, lo1, hi1, a, b) && Tree(n.children[index + 1], h - 1, lo2, hi2, a, b)
    ensures var r := Fusion(n, index);
      forall t :: 0 <= t < |r.children| ==> Tree(r.children[t], h - 1, a - 1, b - 1, a, b)
  {
    var r := Fusion(n, index);
    FusedFits(n, index, h - 1, lo1, hi1, lo2, hi2, a, b);
    TreeWiden(r.children[index], h - 1, lo1 + lo2 + 1, hi1 + hi2 + 1, a - 1, b - 1, a, b);
    forall t | 0 <= t < |r.children| ensures Tree(r.children[t], h - 1, a - 1, b - 1, a, b) {
      if t > index {
        assert r.children[t] == n.children[t + 1];
      }
    }
  }

  // ---------------------------------------------------------------------------
  // _rebalance_delete (abtree.py:226-256)
  // ---------------------------------------------------------------------------

  /**
   * Every leaf below `n` lies at depth `h`, every internal node has one child more than it has
   * elements, and every node strictly below `n` holds at least `a - 1` elements.
   */
  ghost predicate Balanced<V>(n: Node<V>, h: nat, a: int)
    decreases n
  {
    && (h == 0 ==> IsLeaf(n))
    && (h > 0 ==>
          && |n.children| == |n.elements| + 1
          && forall t :: 0 <= t < |n.children| ==> |n.children[t].elements| >= a - 1 && Balanced(n.children[t], h - 1, a))
  }

  lemma {:induction false} TreeBalanced<V>(n: Node<V>, h: nat, lo: int, hi: int, a: int, b: int)
    requires Tree(n, h, lo, hi, a, b)
    ensures Balanced(n, h, a)
    decreases n
  {
    if h > 0 {
      forall t | 0 <= t < |n.children| ensures Balanced(n.children[t], h - 1, a) {
        TreeBalanced(n.children[t], h - 1, a - 1, b - 1, a, b);
      }
    }
  }

  /** The children of a balanced internal node are shaped, and leaves exactly at the bottom level. */
  lemma BalancedChildren<V>(n: Node<V>, h: nat, a: int)
    requires Balanced(n, h, a) && h > 0
    ensures forall t :: 0 <= t < |n.children| ==> Shaped(n.children[t]) && (IsLeaf(n.children[t]) <==> h == 1)
  {
    forall t | 0 <= t < |n.children| ensures Shaped(n.children[t]) && (IsLeaf(n.children[t]) <==> h == 1) {
      assert Balanced(n.children[t], h - 1, a);
    }
  }

  /**
   * The repair `_rebalance_delete` makes at the parent `n` of child `j` once that child holds
   * fewer than `a - 1` elements: a transfer from the left sibling if it holds `a` or more,
   * else from the right sibling if it does, else a fusion with the right sibling (with the
   * left one for the last child). The flag says whether the fusion took an element from `n`,
   * so that `_rebalance_delete` goes on with `n`.
   */
  function RebalanceChild<V>(n: Node<V>, j: nat, a: int): (r: (Node<V>, bool))
    requires |n.children| == |n.elements| + 1 && |n.elements| >= 1 && j < |n.children| && a >= 1
    ensures |r.0.children| == |r.0.elements| + 1
    ensures |r.0.elements| + (if r.1 then 1 else 0) == |n.elements|
    ensures !r.1 <==> (j > 0 && |n.children[j - 1].elements| >= a) || (j < |n.children| - 1 && |n.children[j + 1].elements| >= a)
  {
    if j != 0 && |n.children[j - 1].elements| >= a then (Transfer(n, j, j - 1, true), false)
    else if j != |n.children| - 1 && |n.children[j + 1].elements| >= a then (Transfer(n, j + 1, j, false), false)
    else (Fusion(n, if j < |n.children| - 1 then j else j - 1), true)
  }

  /** The repair keeps the inorder visit of the parent. */
  lemma RebalanceChildInorder<V>(n: Node<V>, j: nat, a: int)
    requires |n.children| == |n.elements| + 1 && |n.elements| >= 1 && j < |n.children| && a >= 1
    requires forall t :: 0 <= t < |n.children| ==> Shaped(n.children[t]) && IsLeaf(n.children[t]) == IsLeaf(n.children[j])
    ensures Inorder(RebalanceChild(n, j, a).0) == Inorder(n)
  {
    if (j != 0 && |n.children[j - 1].elements| >= a) || (j != |n.children| - 1 && |n.children[j + 1].elements| >= a) {
      TransferCase(n, j, a);
    } else {
      FusionCase(n, j, a);
    }
  }

  /** The repair by a rotation keeps the inorder visit of the parent. */
  lemma TransferCase<V>(n: Node<V>, j: nat, a: int)
    requires |n.children| == |n.elements| + 1 && |n.elements| >= 1 && j < |n.children| && a >= 1
    requires forall t :: 0 <= t < |n.children| ==> Shaped(n.children[t]) && IsLeaf(n.children[t]) == IsLeaf(n.children[j])
    requires (j != 0 && |n.children[j - 1].elements| >= a) || (j != |n.children| - 1 && |n.children[j + 1].elements| >= a)
    ensures Inorder(RebalanceChild(n, j, a).0) == Inorder(n)
  {
    if j != 0 && |n.children[j - 1].elements| >= a {
      ShapedPair(n, j, j - 1, j);
      TransferInorder(n, j, j - 1, true);
    } else {
      ShapedPair(n, j, j, j + 1);
      TransferInorder(n, j + 1, j, false);
    }
  }

  /** The repair by fusion keeps the inorder visit of the parent. */
  lemma FusionCase<V>(n: Node<V>, j: nat, a: int)
    requires |n.children| == |n.elements| + 1 && |n.elements| >= 1 && j < |n.children| && a >= 1
    requires forall t :: 0 <= t < |n.children| ==> Shaped(n.children[t]) && IsLeaf(n.children[t]) == IsLeaf(n.children[j])
    requires !(j != 0 && |n.children[j - 1].elements| >= a)
    requires !(j != |n.children| - 1 && |n.children[j + 1].elements| >= a)
    ensures Inorder(RebalanceChild(n, j, a).0) == Inorder(n)
  {
    if j < |n.children| - 1 {
      ShapedPair(n, j, j, j + 1);
      FusionInorder(n, j);
    } else {
      ShapedPair(n, j, j - 1, j);
      FusionInorder(n, j - 1);
    }
  }

  /** Two children of a node whose children are shaped and all leaves or all internal nodes. */
  lemma ShapedPair<V>(n: Node<V>, j: nat, x: nat, y: nat)
    requires j < |n.children| && x < |n.children| && y < |n.children|
    requires forall t :: 0 <= t < |n.children| ==> Shaped(n.children[t]) && IsLeaf(n.children[t]) == IsLeaf(n.children[j])
    ensures Shaped(n.children[x]) && Shaped(n.children[y]) && IsLeaf(n.children[x]) == IsLeaf(n.children[y])
  {
  }

  lemma RebalanceChildFits<V>(n: Node<V>, j: nat, h: nat, a: int, b: int)
    requires 2 <= a <= (b + 1) / 2 && h >= 1
    requires |n.children| == |n.elements| + 1 && |n.elements| >= 1 && j < |n.children|
    requires forall t :: 0 <= t < |n.children| && t != j ==> Tree(n.children[t], h - 1, a - 1, b - 1, a, b)
    requires Tree(n.children[j], h - 1, a - 2, a - 2, a, b)
    ensures var r := RebalanceChild(n, j, a).0;
      forall t :: 0 <= t < |r.children| ==> Tree(r.children[t], h - 1, a - 1, b - 1, a, b)
  {
    var last := |n.children| - 1;
    if j != 0 && |n.children[j - 1].elements| >= a {
      TreeWiden(n.children[j - 1], h - 1, a - 1, b - 1, a, b - 1, a, b);
      TransferFits(n, j, j - 1, true, h, a, b);
    } else if j != last && |n.children[j + 1].elements| >= a {
      TreeWiden(n.children[j + 1], h - 1, a - 1, b - 1, a, b - 1, a, b);
      TransferFits(n, j + 1, j, false, h, a, b);
    } else if j < last {
      TreeWiden(n.children[j + 1], h - 1, a - 1, b - 1, a - 1, a - 1, a, b);
      FusionFits(n, j, h, a - 2, a - 2, a - 1, a - 1, a, b);
    } else {
      TreeWiden(n.children[j - 1], h - 1, a - 1, b - 1, a - 1, a - 1, a, b);
      FusionFits(n, j - 1, h, a - 1, a - 1, a - 2, a - 2, a, b);
    }
  }

  // ---------------------------------------------------------------------------
  // Removal from a leaf and the upward repair
  // ---------------------------------------------------------------------------

  /** Once child `path[0]` has the change `mid` in place of its node at `path[1..]`, so has `n`. */
  lemma ChildReplaced<V>(n: Node<V>, path: seq<nat>, mid: seq<Item<V>>, c: Node<V>)
    requires path != [] && ValidPath(n, path) && |n.children| == |n.elements| + 1
    requires Inorder(c) == ItemsBefore(n.children[path[0]], path[1..]) + mid + ItemsAfter(n.children[path[0]], path[1..])
    ensures Inorder(Node(n.elements, n.children[path[0] := c])) == ItemsBefore(n, path) + mid + ItemsAfter(n, path)
  {
    var j := path[0];
    var cj := n.children[j];
    var pre, suf := Interleaved(n.elements, n.children[..j]), SuffixItems(n.elements, n.children, j);
    InorderUpdateChild(n.elements, n.children, j, c);
    Regroup3(pre, ItemsBefore(cj, path[1..]), mid, ItemsAfter(cj, path[1..]), suf);
  }

  /**
   * `p.element().pop(i)` on the leaf at `path` followed by the calls of `_rebalance_delete` below
   * `n`: the new node, and whether `_rebalance_delete` reaches `n` (the leaf itself, or a node
   * that lost an element to a fusion). At the top the caller handles the root.
   */
  function RemoveAt<V>(n: Node<V>, path: seq<nat>, i: nat, a: int): (r: (Node<V>, bool))
    requires a >= 2 && Balanced(n, |path|, a) && |n.elements| >= 1
    requires ValidPath(n, path) && i < |NodeAt(n, path).elements|
    ensures Shaped(r.0) && IsLeaf(r.0) == IsLeaf(n)
    ensures Inorder(r.0) == ItemsBefore(n, path) + ListPop(NodeAt(n, path).elements, i) + ItemsAfter(n, path)
    decreases path
  {
    if path == [] then
      (Node(ListPop(n.elements, i), n.children), true)
    else
      var j := path[0];
      var (c, shrank) := RemoveAt(n.children[j], path[1..], i, a);
      var n1 := Node(n.elements, n.children[j := c]);
      ChildReplaced(n, path, ListPop(NodeAt(n, path).elements, i), c);
      if shrank && |c.elements| < a - 1 then
        BalancedChildren(n, |path|, a);
        assert forall t :: 0 <= t < |n1.children| && t != j ==> n1.children[t] == n.children[t];
        RebalanceChildInorder(n1, j, a);
        RebalanceChild(n1, j, a)
      else
        (n1, false)
  }

  /** Along a path of a balanced tree every node above the end is shaped and the end is a node of the right depth. */
  lemma {:induction false} BalancedAlong<V>(n: Node<V>, h: nat, a: int, path: seq<nat>)
    requires Balanced(n, h, a) && ValidPath(n, path)
    ensures ShapedAlong(n, path) && |path| <= h && Balanced(NodeAt(n, path), h - |path|, a)
    ensures Shaped(NodeAt(n, path)) && (IsLeaf(NodeAt(n, path)) <==> |path| == h)
    ensures path != [] ==> |NodeAt(n, path).elements| >= a - 1
    decreases path
  {
    if path != [] {
      BalancedAlong(n.children[path[0]], h - 1, a, path[1..]);
    }
  }

  /** The removal, read on the inorder visit of the whole subtree: the item at the position goes. */
  lemma RemoveAtRemoves<V>(n: Node<V>, path: seq<nat>, i: nat, a: int)
    requires a >= 2 && Balanced(n, |path|, a) && |n.elements| >= 1
    requires ValidPath(n, path) && i < |NodeAt(n, path).elements|
    ensures GIndex(n, path, i) < |Inorder(n)|
    ensures Inorder(RemoveAt(n, path, i, a).0) == ListPop(Inorder(n), GIndex(n, path, i))
  {
    BalancedAlong(n, |path|, a, path);
    InorderAround(n, path);
    PopInside(ItemsBefore(n, path), NodeAt(n, path).elements, ItemsAfter(n, path), i);
  }

  /**
   * With the constructor bound, a removal below a node of a balanced tree leaves every node below
   * it between `a - 1` and `b - 1` elements; the node itself loses an element exactly when
   * `_rebalance_delete` reaches it.
   */
  lemma {:induction false} RemoveAtFits<V>(n: Node<V>, path: seq<nat>, i: nat, h: nat, lo: int, hi: int, a: int, b: int)
    requires 2 <= a <= (b + 1) / 2 && 1 <= lo
    requires Tree(n, h, lo, hi, a, b) && |path| == h && Balanced(n, |path|, a)
    requires ValidPath(n, path) && i < |NodeAt(n, path).elements|
    ensures var (r, shrank) := RemoveAt(n, path, i, a);
      && |r.elements| + (if shrank then 1 else 0) == |n.elements|
      && Tree(r, h, lo - (if shrank then 1 else 0), hi, a, b)
    decreases path
  {
    if path != [] {
      var j := path[0];
      ChildFits(n, path, h, lo, hi, a, b);
      var r := RemoveAt(n.children[j], path[1..], i, a);
      RemoveAtFits(n.children[j], path[1..], i, h - 1, a - 1, b - 1, a, b);
      RepairFits(n, j, r.0, r.1, h, lo, hi, a, b);
      RemoveAtStep(n, path, i, a);
    }
  }

  /** One level of `RemoveAt`: the removal below child `path[0]`, then the repair of that child. */
  lemma RemoveAtStep<V>(n: Node<V>, path: seq<nat>, i: nat, a: int)
    requires a >= 2 && Balanced(n, |path|, a) && |n.elements| >= 1
    requires ValidPath(n, path) && i < |NodeAt(n, path).elements| && path != []
    ensures var j := path[0];
      var r := RemoveAt(n.children[j], path[1..], i, a);
      var n1 := Node(n.elements, n.children[j := r.0]);
      && |n1.children| == |n1.elements| + 1
      && RemoveAt(n, path, i, a) == if r.1 && |r.0.elements| < a - 1 then RebalanceChild(n1, j, a) else (n1, false)
  {
  }

  /** The child on the path of a balanced tree is itself balanced, one level lower. */
  lemma ChildFits<V>(n: Node<V>, path: seq<nat>, h: nat, lo: int, hi: int, a: int, b: int)
    requires Tree(n, h, lo, hi, a, b) && |path| == h && Balanced(n, |path|, a)
    requires ValidPath(n, path) && path != []
    ensures path[0] < |n.children| && h >= 1 && |path[1..]| == h - 1
    ensures Tree(n.children[path[0]], h - 1, a - 1, b - 1, a, b) && Balanced(n.children[path[0]], |path[1..]|, a)
    ensures ValidPath(n.children[path[0]], path[1..]) && NodeAt(n.children[path[0]], path[1..]) == NodeAt(n, path)
  {
  }

  /** One level of `_rebalance_delete`: child `j` replaced by `c`, repaired when it fell short. */
  lemma RepairFits<V>(n: Node<V>, j: nat, c: Node<V>, shrank: bool, h: nat, lo: int, hi: int, a: int, b: int)
    requires 2 <= a <= (b + 1) / 2 && 1 <= lo && h >= 1
    requires Tree(n, h, lo, hi, a, b) && j < |n.children|
    requires Tree(c, h - 1, a - 1 - (if shrank then 1 else 0), b - 1, a, b)
    ensures var n1 := Node(n.elements, n.children[j := c]);
      var r := if shrank && |c.elements| < a - 1 then RebalanceChild(n1, j, a) else (n1, false);
      && |r.0.elements| + (if r.1 then 1 else 0) == |n.elements|
      && Tree(r.0, h, lo - (if r.1 then 1 else 0), hi, a, b)
  {
    var n1 := Node(n.elements, n.children[j := c]);
    assert forall t :: 0 <= t < |n1.children| && t != j ==> n1.children[t] == n.children[t];
    if shrank && |c.elements| < a - 1 {
      TreeWiden(c, h - 1, a - 1 - (if shrank then 1 else 0), b - 1, a - 2, a - 2, a, b);
      RebalanceChildFits(n1, j, h, a, b);
    } else {
      TreeWiden(c, h - 1, a - 1 - (if shrank then 1 else 0), b - 1, a - 1, b - 1, a, b);
    }
  }

  // ---------------------------------------------------------------------------
  // _delete_element (abtree.py:193-202)
  // ---------------------------------------------------------------------------

  /** The depth of the leftmost leaf below `n`. */
  function Depth<V>(n: Node<V>): (d: nat)
    ensures d == 0 <==> IsLeaf(n)
    decreases n
  {
    if IsLeaf(n) then 0 else 1 + Depth(n.children[0])
  }

  lemma {:induction false} BalancedDepth<V>(n: Node<V>, h: nat, a: int)
    requires Balanced(n, h, a)
    ensures Depth(n) == h
    decreases n
  {
    if h > 0 {
      BalancedDepth(n.children[0], h - 1, a);
    }
  }

  lemma {:induction false} BalancedSearchable<V>(n: Node<V>, h: nat, a: int)
    requires Balanced(n, h, a) && a >= 2 && |n.elements| >= 1
    ensures Searchable(n)
    decreases n
  {
    if h > 0 {
      forall t | 0 <= t < |n.children| ensures Searchable(n.children[t]) {
        BalancedSearchable(n.children[t], h - 1, a);
      }
    }
  }

  /** `p.element()[i] = x`: one half of the swap in `_delete_element`. */
  function SetElement<V>(n: Node<V>, path: seq<nat>, i: nat, x: Item<V>): (r: Node<V>)
    requires ValidPath(n, path) && i < |NodeAt(n, path).elements|
    ensures ValidPath(r, path) && NodeAt(r, path).elements == NodeAt(n, path).elements[i := x]
    ensures NodeAt(r, path).children == NodeAt(n, path).children && |r.elements| == |n.elements|
  {
    var m := NodeAt(n, path);
    ReplaceAt(n, path, Node(m.elements[i := x], m.children))
  }

  /** The inorder visit of an internal node around its element `i`. */
  lemma WovenElement<V>(es: seq<Item<V>>, cs: seq<Node<V>>, i: nat)
    requires |cs| == |es| + 1 && i < |es|
    ensures Woven(es, cs) == Interleaved(es, cs[..i]) + Inorder(cs[i]) + [es[i]] + Woven(es[i + 1..], cs[i + 1..])
  {
    WovenAt(es, cs, i);
    SuffixShift(es, cs, i);
  }

  /** Writing element `i` of an internal node writes one item of its inorder visit. */
  lemma WovenSet<V>(es: seq<Item<V>>, cs: seq<Node<V>>, i: nat, x: Item<V>)
    requires |cs| == |es| + 1 && i < |es|
    ensures |Interleaved(es, cs[..i])| + |Inorder(cs[i])| < |Woven(es, cs)|
    ensures Woven(es[i := x], cs)
         == Woven(es, cs)[|Interleaved(es, cs[..i])| + |Inorder(cs[i])| := x]
  {
    var es' := es[i := x];
    WovenElement(es, cs, i);
    WovenElement(es', cs, i);
    InterleavedSame(es', es, cs[..i]);
    assert es'[i + 1..] == es[i + 1..];
    var pre, w := Interleaved(es, cs[..i]) + Inorder(cs[i]), Woven(es[i + 1..], cs[i + 1..]);
    UpdateInside(pre, [es[i]], w, 0, x);
  }

  /** Writing element `i` of a node writes its item in the inorder visit. */
  lemma ElementSetInorder<V>(m: Node<V>, i: nat, x: Item<V>)
    requires Shaped(m) && i < |m.elements|
    ensures ElementIndex(m, i) < |Inorder(m)|
    ensures Inorder(Node(m.elements[i := x], m.children)) == Inorder(m)[ElementIndex(m, i) := x]
  {
    ElementAt(m, i);
    if !IsLeaf(m) {
      WovenSet(m.elements, m.children, i, x);
    }
  }

  /** Writing an element of a node writes its item in the inorder visit of the whole tree. */
  lemma SetElementInorder<V>(n: Node<V>, path: seq<nat>, i: nat, x: Item<V>)
    requires ValidPath(n, path) && ShapedAlong(n, path) && Shaped(NodeAt(n, path)) && i < |NodeAt(n, path).elements|
    ensures GIndex(n, path, i) < |Inorder(n)|
    ensures Inorder(SetElement(n, path, i, x)) == Inorder(n)[GIndex(n, path, i) := x]
  {
    var m := NodeAt(n, path);
    InorderReplace(n, path, Node(m.elements[i := x], m.children));
    InorderAround(n, path);
    ElementSetInorder(m, i, x);
    UpdateInside(ItemsBefore(n, path), Inorder(m), ItemsAfter(n, path), ElementIndex(m, i), x);
  }

  /** Writing an element keeps every fill bound and the depth of every leaf. */
  lemma {:induction false} ReplaceKeeps<V>(n: Node<V>, path: seq<nat>, m: Node<V>, h: nat, a: int)
    requires ValidPath(n, path)
    requires |m.elements| == |NodeAt(n, path).elements| && m.children == NodeAt(n, path).children
    ensures Balanced(n, h, a) ==> Balanced(ReplaceAt(n, path, m), h, a)
    ensures Searchable(n) ==> Searchable(ReplaceAt(n, path, m))
    ensures |ReplaceAt(n, path, m).elements| == |n.elements|
    decreases path
  {
    if path != [] {
      var j := path[0];
      var r := ReplaceAt(n, path, m);
      ReplaceKeeps(n.children[j], path[1..], m, if h > 0 then h - 1 else 0, a);
      assert forall t :: 0 <= t < |r.children| && t != j ==> r.children[t] == n.children[t];
    }
  }

  /** Writing an element keeps every fill bound and the depth of every leaf. */
  lemma {:induction false} ReplaceTree<V>(n: Node<V>, path: seq<nat>, m: Node<V>, h: nat, lo: int, hi: int, a: int, b: int)
    requires ValidPath(n, path) && Tree(n, h, lo, hi, a, b)
    requires |m.elements| == |NodeAt(n, path).elements| && m.children == NodeAt(n, path).children
    ensures Tree(ReplaceAt(n, path, m), h, lo, hi, a, b)
    decreases path
  {
    if path != [] {
      var j := path[0];
      var r := ReplaceAt(n, path, m);
      ReplaceTree(n.children[j], path[1..], m, h - 1, a - 1, b - 1, a, b);
      assert forall t :: 0 <= t < |r.children| && t != j ==> r.children[t] == n.children[t];
    }
  }

  /** Writing an element of the node at `path` leaves the subtrees below it, and what precedes child `s[0] <= i`, alone. */
  lemma SetElementBelow<V>(n: Node<V>, path: seq<nat>, i: nat, x: Item<V>, s: seq<nat>)
    requires ValidPath(n, path) && i < |NodeAt(n, path).elements|
    requires s != [] && s[0] <= i && ValidPath(NodeAt(n, path), s)
    ensures ValidPath(n, path + s) && ValidPath(SetElement(n, path, i, x), path + s)
    ensures NodeAt(SetElement(n, path, i, x), path + s) == NodeAt(n, path + s)
    ensures ItemsBefore(SetElement(n, path, i, x), path + s) == ItemsBefore(n, path + s)
  {
    var t := SetElement(n, path, i, x);
    var m, m' := NodeAt(n, path), NodeAt(t, path);
    assert ValidPath(m', s) && NodeAt(m', s) == NodeAt(m, s);
    PathConcat(n, path, s);
    PathConcat(t, path, s);
    PathConcatAround(n, path, s);
    PathConcatAround(t, path, s);
    ReplaceAround(n, path, Node(m.elements[i := x], m.children));
    InterleavedSame(m'.elements, m.elements, m.children[..s[0]]);
  }

  /** The last slot of child `i` of an internal node, as a path from the node. */
  lemma SlotInChild<V>(node: Node<V>, i: nat)
    requires Searchable(node) && !IsLeaf(node) && i < |node.elements|
    ensures i < |node.children|
    ensures var s := [i] + LastPosition(node.children[i]).0;
      && ValidPath(node, s) && s[0] == i && IsLeaf(NodeAt(node, s))
      && 0 <= LastPosition(node.children[i]).1 < |NodeAt(node, s).elements|
  {
    var c := node.children[i];
    assert Searchable(c);
    LastPositionIsLast(c);
    var q := LastPosition(c).0;
    var s := [i] + q;
    assert s[0] == i && s[1..] == q;
  }

  /** Where `before(p, i)` finds the predecessor of element `i` of an internal node: a leaf slot. */
  lemma PredecessorSlot<V>(n: Node<V>, path: seq<nat>, i: nat)
    requires Searchable(n) && ValidPath(n, path) && !IsLeaf(NodeAt(n, path)) && i < |NodeAt(n, path).elements|
    ensures i < |NodeAt(n, path).children|
    ensures var node := NodeAt(n, path);
      var q := LastPosition(node.children[i]).0;
      && ValidPath(node, [i] + q) && ([i] + q)[0] == i
      && ValidPath(n, path + ([i] + q)) && path + [i] + q == path + ([i] + q)
      && IsLeaf(NodeAt(n, path + ([i] + q)))
      && 0 <= LastPosition(node.children[i]).1 < |NodeAt(n, path + ([i] + q)).elements|
  {
    var node := NodeAt(n, path);
    SearchableAlong(n, path);
    SlotInChild(node, i);
    var s := [i] + LastPosition(node.children[i]).0;
    PathConcat(n, path, s);
  }

  /**
   * The swap of `_delete_element` at an internal node: element `i` trades places with its
   * predecessor, the last item of child `i`, which `before(p, i)` locates in a leaf. Returns the
   * tree after the swap and the leaf slot now holding the item to delete.
   */
  function SwapWithPredecessor<V>(n: Node<V>, path: seq<nat>, i: nat): (r: (Node<V>, seq<nat>, nat))
    requires Searchable(n) && ValidPath(n, path) && !IsLeaf(NodeAt(n, path)) && i < |NodeAt(n, path).elements|
    ensures ValidPath(n, r.1) && ValidPath(r.0, r.1) && IsLeaf(NodeAt(r.0, r.1)) && IsLeaf(NodeAt(n, r.1))
    ensures r.2 < |NodeAt(r.0, r.1).elements| && NodeAt(r.0, r.1).elements[r.2] == NodeAt(n, path).elements[i]
    ensures |r.0.elements| == |n.elements|
  {
    var node := NodeAt(n, path);
    PredecessorSlot(n, path, i);
    var qk := LastPosition(node.children[i]);
    var s := [i] + qk.0;
    var k: nat := qk.1;
    var pred := NodeAt(n, path + s).elements[k];
    SetElementBelow(n, path, i, pred, s);
    var t := SetElement(n, path, i, pred);
    (SetElement(t, path + s, k, node.elements[i]), path + s, k)
  }

  /** `before` as written returns the same predecessor position at an internal node. */
  lemma SwapUsesBefore<V>(n: Node<V>, path: seq<nat>, i: nat)
    requires Searchable(n) && ValidPath(n, path) && !IsLeaf(NodeAt(n, path)) && i < |NodeAt(n, path).elements|
    ensures BeforeAsWritten(n, path, i) == Success((Some(SwapWithPredecessor(n, path, i).1), SwapWithPredecessor(n, path, i).2))
  {
    SearchableAlong(n, path);
    assert [i] + LastPosition(NodeAt(n, path).children[i]).0 == [i] + LastPosition(NodeAt(n, path).children[i]).0;
    assert path + [i] + LastPosition(NodeAt(n, path).children[i]).0 == path + ([i] + LastPosition(NodeAt(n, path).children[i]).0);
  }

  /** Writing an element of a node, seen from a slot below it. */
  lemma SetAbove<V>(n: Node<V>, path: seq<nat>, i: nat, x: Item<V>, s: seq<nat>, k: nat)
    requires Searchable(n) && ValidPath(n, path) && i < |NodeAt(n, path).elements|
    requires s != [] && s[0] <= i && ValidPath(NodeAt(n, path), s)
    ensures Searchable(SetElement(n, path, i, x)) && GIndex(n, path, i) < |Inorder(n)|
    ensures Inorder(SetElement(n, path, i, x)) == Inorder(n)[GIndex(n, path, i) := x]
    ensures ValidPath(n, path + s) && ValidPath(SetElement(n, path, i, x), path + s)
    ensures GIndex(SetElement(n, path, i, x), path + s, k) == GIndex(n, path + s, k)
  {
    var m := NodeAt(n, path);
    SearchableAlong(n, path);
    SetElementInorder(n, path, i, x);
    SetElementBelow(n, path, i, x, s);
    ReplaceKeeps(n, path, Node(m.elements[i := x], m.children), 0, 2);
  }

  /** Writing an element of a leaf, seen from that slot. */
  lemma SetLeafInorder<V>(t: Node<V>, lp: seq<nat>, k: nat, x: Item<V>)
    requires Searchable(t) && ValidPath(t, lp) && IsLeaf(NodeAt(t, lp)) && k < |NodeAt(t, lp).elements|
    ensures GIndex(t, lp, k) < |Inorder(t)|
    ensures Inorder(SetElement(t, lp, k, x)) == Inorder(t)[GIndex(t, lp, k) := x]
    ensures GIndex(SetElement(t, lp, k, x), lp, k) == GIndex(t, lp, k)
  {
    var leaf := NodeAt(t, lp);
    SearchableAlong(t, lp);
    SetElementInorder(t, lp, k, x);
    ReplaceAround(t, lp, Node(leaf.elements[k := x], leaf.children));
  }

  /**
   * On the inorder visit, the swap exchanges the item at the position of element `i` with the
   * one just before it, and the leaf slot returned is that earlier position.
   */
  lemma SwapInorder<V>(n: Node<V>, path: seq<nat>, i: nat)
    requires Searchable(n) && ValidPath(n, path) && !IsLeaf(NodeAt(n, path)) && i < |NodeAt(n, path).elements|
    ensures var (t, lp, k) := SwapWithPredecessor(n, path, i);
      var g := GIndex(n, path, i);
      var s := Inorder(n);
      && 1 <= g < |s|
      && GIndex(t, lp, k) + 1 == g
      && Inorder(t) == s[g := s[g - 1]][g - 1 := s[g]]
  {
    var node := NodeAt(n, path);
    PredecessorSlot(n, path, i);
    var qk := LastPosition(node.children[i]);
    var s := [i] + qk.0;
    var k: nat := qk.1;
    var lp := path + s;
    var g := GIndex(n, path, i);
    BeforeInternal(n, path, i);
    assert GIndex(n, lp, k) + 1 == g;
    SearchableAlong(n, lp);
    GIndexAt(n, lp, k);
    SearchableAlong(n, path);
    GIndexAt(n, path, i);
    var pred := NodeAt(n, lp).elements[k];
    SetAbove(n, path, i, pred, s, k);
    var t1 := SetElement(n, path, i, pred);
    SetElementBelow(n, path, i, pred, s);
    SetLeafInorder(t1, lp, k, node.elements[i]);
  }

  /** The swap keeps the tree balanced: it moves items, not nodes. */
  lemma SwapKeeps<V>(n: Node<V>, path: seq<nat>, i: nat, h: nat, a: int)
    requires Searchable(n) && ValidPath(n, path) && !IsLeaf(NodeAt(n, path)) && i < |NodeAt(n, path).elements|
    ensures Searchable(SwapWithPredecessor(n, path, i).0)
    ensures Balanced(n, h, a) ==> Balanced(SwapWithPredecessor(n, path, i).0, h, a)
  {
    var node := NodeAt(n, path);
    PredecessorSlot(n, path, i);
    var qk := LastPosition(node.children[i]);
    var s := [i] + qk.0;
    var k: nat := qk.1;
    var pred := NodeAt(n, path + s).elements[k];
    SetElementBelow(n, path, i, pred, s);
    ReplaceKeeps(n, path, Node(node.elements[i := pred], node.children), h, a);
    var t := SetElement(n, path, i, pred);
    var leaf := NodeAt(t, path + s);
    ReplaceKeeps(t, path + s, Node(leaf.elements[k := node.elements[i]], leaf.children), h, a);
  }

  /** The swap keeps every fill bound. */
  lemma SwapTree<V>(n: Node<V>, path: seq<nat>, i: nat, h: nat, lo: int, hi: int, a: int, b: int)
    requires Searchable(n) && ValidPath(n, path) && !IsLeaf(NodeAt(n, path)) && i < |NodeAt(n, path).elements|
    requires Tree(n, h, lo, hi, a, b)
    ensures Tree(SwapWithPredecessor(n, path, i).0, h, lo, hi, a, b)
  {
    var node := NodeAt(n, path);
    PredecessorSlot(n, path, i);
    var qk := LastPosition(node.children[i]);
    var s := [i] + qk.0;
    var k: nat := qk.1;
    var pred := NodeAt(n, path + s).elements[k];
    SetElementBelow(n, path, i, pred, s);
    ReplaceTree(n, path, Node(node.elements[i := pred], node.children), h, lo, hi, a, b);
    var t := SetElement(n, path, i, pred);
    var leaf := NodeAt(t, path + s);
    ReplaceTree(t, path + s, Node(leaf.elements[k := node.elements[i]], leaf.children), h, lo, hi, a, b);
  }

  /**
   * `_delete_element(p, i)` below the root: the swap with the predecessor at an internal node,
   * the pop at the leaf and the repairs below the root. The flag says whether
   * `_rebalance_delete` reaches the root. On the inorder visit, exactly the item at the
   * position of element `i` goes.
   */
  function DeleteAt<V>(n: Node<V>, path: seq<nat>, i: nat, a: int): (r: (Node<V>, bool))
    requires a >= 2 && Balanced(n, Depth(n), a) && |n.elements| >= 1
    requires ValidPath(n, path) && i < |NodeAt(n, path).elements|
    ensures GIndex(n, path, i) < |Inorder(n)|
    ensures Inorder(r.0) == ListPop(Inorder(n), GIndex(n, path, i))
  {
    BalancedAlong(n, Depth(n), a, path);
    BalancedSearchable(n, Depth(n), a);
    if IsLeaf(NodeAt(n, path)) then
      RemoveAtRemoves(n, path, i, a);
      RemoveAt(n, path, i, a)
    else
      var (t, lp, k) := SwapWithPredecessor(n, path, i);
      SwapInorder(n, path, i);
      SwapKeeps(n, path, i, Depth(n), a);
      BalancedAlong(n, Depth(n), a, lp);
      RemoveAtRemoves(t, lp, k, a);
      SwapPop(Inorder(n), GIndex(n, path, i));
      RemoveAt(t, lp, k, a)
  }

  /**
   * With the constructor bound, a deletion from a valid tree leaves every node below the root
   * between `a - 1` and `b - 1` elements, and the root loses an element exactly when
   * `_rebalance_delete` reaches it.
   */
  lemma DeleteAtFits<V>(n: Node<V>, path: seq<nat>, i: nat, h: nat, a: int, b: int)
    requires 2 <= a <= (b + 1) / 2 && Tree(n, h, 1, b - 1, a, b) && Balanced(n, Depth(n), a)
    requires ValidPath(n, path) && i < |NodeAt(n, path).elements|
    ensures var (r, shrank) := DeleteAt(n, path, i, a);
      && |r.elements| + (if shrank then 1 else 0) == |n.elements|
      && Tree(r, h, if shrank then 0 else 1, b - 1, a, b)
  {
    TreeBalanced(n, h, 1, b - 1, a, b);
    BalancedDepth(n, h, a);
    BalancedAlong(n, h, a, path);
    BalancedSearchable(n, h, a);
    if IsLeaf(NodeAt(n, path)) {
      RemoveAtFits(n, path, i, h, 1, b - 1, a, b);
    } else {
      var (t, lp, k) := SwapWithPredecessor(n, path, i);
      SwapKeeps(n, path, i, h, a);
      SwapTree(n, path, i, h, 1, b - 1, a, b);
      BalancedAlong(n, h, a, lp);
      RemoveAtFits(t, lp, k, h, 1, b - 1, a, b);
    }
  }
}
