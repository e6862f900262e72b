/**
 * Local improvement of a Hamiltonian cycle held as an open vertex list `hc` (the closing edge
 * from the last vertex back to the first is implicit): the 2-opt and 3-opt moves, the rotation
 * of the list, the improvement loops that alternate them, and the cycle cost
 * (project2/exchange_tour/two_three_opt.py, project2/excange_tour/excange_tour.py).
 *
 * The two files differ only in how far apart the cut points must be: at least two positions in
 * two_three_opt.py, at least one in excange_tour.py. Both are `gap` here. Weights are integers;
 * the rounding of float sums to ten decimals is not modelled.
 */
module TourMoves {
  import opened Wrappers
  import opened Exceptions
  import opened Sequences
  import opened Graphs
  import opened Primes

  /** Python's `range(n)` is empty for a negative `n`. */
  function Upto(n: int): nat
  {
    if n < 0 then 0 else n
  }

  /** `after` rearranges the path `before` and keeps both its ends: the shape every move preserves. */
  ghost predicate Rearranged(g: Graph, before: seq<int>, after: seq<int>)
  {
    |after| == |before| && multiset(after) == multiset(before) && Linked(g, after) &&
    (|before| > 0 ==> after[0] == before[0] && after[|after| - 1] == before[|before| - 1])
  }

  // ---------------------------------------------------------------------------
  // The rearrangements, as functions of the list
  // ---------------------------------------------------------------------------

  /** The 2-opt move at `(i, j)`: the stretch `hc[i+1..j]` read backwards. */
  function TwoOptMove(s: seq<int>, i: nat, j: nat): (r: seq<int>)
    requires i < j < |s|
    ensures |r| == |s| && multiset(r) == multiset(s)
  {
    var p, a, q := s[..i + 1], s[i + 1..j + 1], s[j + 1..];
    assert s == p + a + q;
    ReversedMultiset(a);
    p + Reversed(a) + q
  }

  /** The 3-opt move at `(i, j, k)`, first case: the stretches `hc[i+1..j]` and `hc[j+1..k]` change places. */
  function SwapMove(s: seq<int>, i: nat, j: nat, k: nat): (r: seq<int>)
    requires i < j < k < |s|
    ensures |r| == |s| && multiset(r) == multiset(s)
  {
    var p, a, b, q := s[..i + 1], s[i + 1..j + 1], s[j + 1..k + 1], s[k + 1..];
    assert s == p + a + b + q;
    p + b + a + q
  }

  /** The 3-opt move at `(i, j, k)`, second case: the stretches change places and the first is read backwards. */
  function SwapReverseMove(s: seq<int>, i: nat, j: nat, k: nat): (r: seq<int>)
    requires i < j < k < |s|
    ensures |r| == |s| && multiset(r) == multiset(s)
  {
    var p, a, b, q := s[..i + 1], s[i + 1..j + 1], s[j + 1..k + 1], s[k + 1..];
    assert s == p + a + b + q;
    ReversedMultiset(a);
    p + b + Reversed(a) + q
  }

  /** Which 3-opt case applies: the first when its three new edges exist, else the second. */
  function ThreeOptMove(g: Graph, s: seq<int>, i: nat, j: nat, k: nat): (r: seq<int>)
    requires i < j < k < |s| - 1
    ensures |r| == |s| && multiset(r) == multiset(s)
  {
    if (s[i], s[j + 1]) in g.weight && (s[j], s[k + 1]) in g.weight && (s[k], s[i + 1]) in g.weight
    then SwapMove(s, i, j, k) else SwapReverseMove(s, i, j, k)
  }

  /** An in-place slice assignment `l[lo:lo+len(seg)] = seg`, as a sequence. */
  lemma SliceAssigned(before: seq<int>, after: seq<int>, lo: nat, seg: seq<int>)
    requires lo + |seg| <= |before| == |after|
    requires forall t :: lo <= t < lo + |seg| ==> after[t] == seg[t - lo]
    requires forall t :: 0 <= t < |before| && !(lo <= t < lo + |seg|) ==> after[t] == before[t]
    ensures after == before[..lo] + seg + before[lo + |seg|..]
  {
    var r := before[..lo] + seg + before[lo + |seg|..];
    forall t | 0 <= t < |after|
      ensures after[t] == r[t]
    {
      if t < lo {
        assert r[t] == before[t];
      } else if t < lo + |seg| {
        assert r[t] == seg[t - lo];
      } else {
        assert r[t] == before[t];
      }
    }
  }

  /** `hc[n:] + hc[:n]`; a shift past the end leaves the list as it is. */
  function RotatedLeft(s: seq<int>, n: nat): (r: seq<int>)
    ensures |r| == |s| && multiset(r) == multiset(s)
    ensures |s| > 0 ==> forall t :: 0 <= t < |s| ==> r[t] == s[(t + Shift(n, |s|)) % |s|]
  {
    var m := Shift(n, |s|);
    assert s == s[..m] + s[m..];
    RotatedAt(s, m);
    s[m..] + s[..m]
  }

  /** How far `hc[n:] + hc[:n]` moves the list: `n`, or nothing when `n` is not before the end. */
  function Shift(n: nat, len: nat): nat
  {
    if n < len then n else 0
  }

  lemma RotatedAt(s: seq<int>, m: nat)
    requires m <= |s|
    ensures forall t :: 0 <= t < |s| ==> (s[m..] + s[..m])[t] == s[(t + m) % |s|]
  {
    forall t | 0 <= t < |s|
      ensures (s[m..] + s[..m])[t] == s[(t + m) % |s|]
    {
      if t < |s| - m {
        DivModUnique(t + m, |s|, 0, t + m);
      } else {
        DivModUnique(t + m, |s|, 1, t + m - |s|);
      }
    }
  }

  // ---------------------------------------------------------------------------
  // What each rearrangement does to a path and its cost
  // ---------------------------------------------------------------------------

  /** Three stretches joined end to start form a path exactly when each is one and the junctions are edges; its cost adds up. */
  lemma Join3(g: Graph, s: seq<int>, p: seq<int>, a: seq<int>, q: seq<int>)
    requires |p| > 0 && |a| > 0 && |q| > 0 && s == p + a + q
    ensures Linked(g, s) <==>
      Linked(g, p) && Linked(g, a) && Linked(g, q) && (p[|p| - 1], a[0]) in g.weight && (a[|a| - 1], q[0]) in g.weight
    ensures Linked(g, s) ==>
      PathCost(g, s) ==
      PathCost(g, p) + g.weight[(p[|p| - 1], a[0])] + PathCost(g, a) + g.weight[(a[|a| - 1], q[0])] + PathCost(g, q)
  {
    var pa := p + a;
    assert pa[|pa| - 1] == a[|a| - 1];
    assert s == pa + q;
    LinkedConcat(g, p, a);
    LinkedConcat(g, pa, q);
    if Linked(g, s) {
      CostConcat(g, pa, q);
      CostConcat(g, p, a);
    }
  }

  /** Four stretches joined end to start form a path exactly when each is one and the junctions are edges; its cost adds up. */
  lemma Join4(g: Graph, s: seq<int>, p: seq<int>, a: seq<int>, b: seq<int>, q: seq<int>)
    requires |p| > 0 && |a| > 0 && |b| > 0 && |q| > 0 && s == p + a + b + q
    ensures Linked(g, s) <==>
      Linked(g, p) && Linked(g, a) && Linked(g, b) && Linked(g, q) &&
      (p[|p| - 1], a[0]) in g.weight && (a[|a| - 1], b[0]) in g.weight && (b[|b| - 1], q[0]) in g.weight
    ensures Linked(g, s) ==>
      PathCost(g, s) ==
      PathCost(g, p) + g.weight[(p[|p| - 1], a[0])] + PathCost(g, a) + g.weight[(a[|a| - 1], b[0])] +
      PathCost(g, b) + g.weight[(b[|b| - 1], q[0])] + PathCost(g, q)
  {
    var pa := p + a;
    assert pa[|pa| - 1] == a[|a| - 1];
    assert s == pa + b + q;
    LinkedConcat(g, p, a);
    Join3(g, s, pa, b, q);
    if Linked(g, s) {
      CostConcat(g, p, a);
    }
  }

  /** Reading the middle stretch backwards reconnects it through the two new junctions. */
  lemma ReversePieces(g: Graph, p: seq<int>, a: seq<int>, q: seq<int>)
    requires Undirected(g) && |p| > 0 && |a| > 0 && |q| > 0
    requires Linked(g, p) && Linked(g, a) && Linked(g, q)
    requires (p[|p| - 1], a[0]) in g.weight && (a[|a| - 1], q[0]) in g.weight
    requires (p[|p| - 1], a[|a| - 1]) in g.weight && (a[0], q[0]) in g.weight
    ensures Linked(g, p + a + q) && Linked(g, p + Reversed(a) + q)
    ensures PathCost(g, p + Reversed(a) + q) + g.weight[(p[|p| - 1], a[0])] + g.weight[(a[|a| - 1], q[0])] ==
      PathCost(g, p + a + q) + g.weight[(p[|p| - 1], a[|a| - 1])] + g.weight[(a[0], q[0])]
  {
    Join3(g, p + a + q, p, a, q);
    CostReverse(g, a);
    Join3(g, p + Reversed(a) + q, p, Reversed(a), q);
  }

  /** Exchanging the two middle stretches reconnects them through the three new junctions. */
  lemma SwapPieces(g: Graph, p: seq<int>, a: seq<int>, b: seq<int>, q: seq<int>)
    requires |p| > 0 && |a| > 0 && |b| > 0 && |q| > 0
    requires Linked(g, p) && Linked(g, a) && Linked(g, b) && Linked(g, q)
    requires (p[|p| - 1], a[0]) in g.weight && (a[|a| - 1], b[0]) in g.weight && (b[|b| - 1], q[0]) in g.weight
    requires (p[|p| - 1], b[0]) in g.weight && (b[|b| - 1], a[0]) in g.weight && (a[|a| - 1], q[0]) in g.weight
    ensures Linked(g, p + a + b + q) && Linked(g, p + b + a + q)
    ensures PathCost(g, p + b + a + q) + g.weight[(p[|p| - 1], a[0])] + g.weight[(a[|a| - 1], b[0])] + g.weight[(b[|b| - 1], q[0])] ==
      PathCost(g, p + a + b + q) + g.weight[(p[|p| - 1], b[0])] + g.weight[(b[|b| - 1], a[0])] + g.weight[(a[|a| - 1], q[0])]
  {
    Join4(g, p + a + b + q, p, a, b, q);
    Join4(g, p + b + a + q, p, b, a, q);
  }

  /** Exchanging the two middle stretches and reading the first backwards reconnects them through the three new junctions. */
  lemma SwapReversePieces(g: Graph, p: seq<int>, a: seq<int>, b: seq<int>, q: seq<int>)
    requires Undirected(g) && |p| > 0 && |a| > 0 && |b| > 0 && |q| > 0
    requires Linked(g, p) && Linked(g, a) && Linked(g, b) && Linked(g, q)
    requires (p[|p| - 1], a[0]) in g.weight && (a[|a| - 1], b[0]) in g.weight && (b[|b| - 1], q[0]) in g.weight
    requires (p[|p| - 1], b[0]) in g.weight && (a[|a| - 1], b[|b| - 1]) in g.weight && (a[0], q[0]) in g.weight
    ensures Linked(g, p + a + b + q) && Linked(g, p + b + Reversed(a) + q)
    ensures PathCost(g, p + b + Reversed(a) + q) + g.weight[(p[|p| - 1], a[0])] + g.weight[(a[|a| - 1], b[0])] + g.weight[(b[|b| - 1], q[0])] ==
      PathCost(g, p + a + b + q) + g.weight[(p[|p| - 1], b[0])] + g.weight[(a[|a| - 1], b[|b| - 1])] + g.weight[(a[0], q[0])]
  {
    Join4(g, p + a + b + q, p, a, b, q);
    CostReverse(g, a);
    EdgeBack(g, a[|a| - 1], b[|b| - 1]);
    Join4(g, p + b + Reversed(a) + q, p, b, Reversed(a), q);
  }

  /** The 2-opt move improves the path: both new junctions are edges and weigh strictly less than the two they replace. */
  ghost predicate TwoOptImproves(g: Graph, s: seq<int>, i: nat, j: nat)
    requires Linked(g, s) && i < j < |s| - 1
  {
    LinkedPair(g, s, i);
    LinkedPair(g, s, j);
    (s[i], s[j]) in g.weight && (s[i + 1], s[j + 1]) in g.weight &&
    g.weight[(s[i], s[i + 1])] + g.weight[(s[j], s[j + 1])] > g.weight[(s[i], s[j])] + g.weight[(s[i + 1], s[j + 1])]
  }

  /**
   * The 3-opt move the code would make improves the path: in the first case when its three new
   * edges exist, otherwise in the second case when its three edges exist, and the new edges
   * weigh strictly less than the three they replace.
   */
  ghost predicate ThreeOptImproves(g: Graph, s: seq<int>, i: nat, j: nat, k: nat)
    requires Linked(g, s) && i < j < k < |s| - 1
  {
    LinkedPair(g, s, i);
    LinkedPair(g, s, j);
    LinkedPair(g, s, k);
    var oldW := g.weight[(s[i], s[i + 1])] + g.weight[(s[j], s[j + 1])] + g.weight[(s[k], s[k + 1])];
    if (s[i], s[j + 1]) in g.weight && (s[j], s[k + 1]) in g.weight && (s[k], s[i + 1]) in g.weight then
      oldW > g.weight[(s[i], s[j + 1])] + g.weight[(s[j], s[k + 1])] + g.weight[(s[k], s[i + 1])]
    else
      (s[j], s[k]) in g.weight && (s[i + 1], s[k + 1]) in g.weight && (s[i], s[j + 1]) in g.weight &&
      oldW > g.weight[(s[i], s[j + 1])] + g.weight[(s[j], s[k])] + g.weight[(s[i + 1], s[k + 1])]
  }

  /**
   * A 2-opt move whose two new junctions are edges leaves a path with the same ends, and its cost
   * changes by the weight of the new junctions less the weight of the old ones.
   */
  lemma TwoOptCost(g: Graph, s: seq<int>, i: nat, j: nat)
    requires Undirected(g) && Linked(g, s) && i < j < |s| - 1
    requires (s[i], s[i + 1]) in g.weight && (s[j], s[j + 1]) in g.weight
    requires (s[i], s[j]) in g.weight && (s[i + 1], s[j + 1]) in g.weight
    ensures Rearranged(g, s, TwoOptMove(s, i, j))
    ensures PathCost(g, TwoOptMove(s, i, j)) + g.weight[(s[i], s[i + 1])] + g.weight[(s[j], s[j + 1])] ==
      PathCost(g, s) + g.weight[(s[i], s[j])] + g.weight[(s[i + 1], s[j + 1])]
  {
    var p, a, q := s[..i + 1], s[i + 1..j + 1], s[j + 1..];
    assert s == p + a + q;
    assert p[|p| - 1] == s[i] && a[0] == s[i + 1] && a[|a| - 1] == s[j] && q[0] == s[j + 1];
    Join3(g, s, p, a, q);
    ReversePieces(g, p, a, q);
    var r := p + Reversed(a) + q;
    assert TwoOptMove(s, i, j) == r;
    assert r[0] == s[0] && r[|r| - 1] == s[|s| - 1];
  }

  /** The first 3-opt case: the cost changes by the weight of the three new junctions less the three old ones. */
  lemma SwapCost(g: Graph, s: seq<int>, i: nat, j: nat, k: nat)
    requires Linked(g, s) && i < j < k < |s| - 1
    requires (s[i], s[j + 1]) in g.weight && (s[j], s[k + 1]) in g.weight && (s[k], s[i + 1]) in g.weight
    requires (s[i], s[i + 1]) in g.weight && (s[j], s[j + 1]) in g.weight && (s[k], s[k + 1]) in g.weight
    ensures Rearranged(g, s, SwapMove(s, i, j, k))
    ensures PathCost(g, SwapMove(s, i, j, k)) + g.weight[(s[i], s[i + 1])] + g.weight[(s[j], s[j + 1])] + g.weight[(s[k], s[k + 1])] ==
      PathCost(g, s) + g.weight[(s[i], s[j + 1])] + g.weight[(s[j], s[k + 1])] + g.weight[(s[k], s[i + 1])]
  {
    var p, a, b, q := s[..i + 1], s[i + 1..j + 1], s[j + 1..k + 1], s[k + 1..];
    assert s == p + a + b + q;
    assert p[|p| - 1] == s[i] && a[0] == s[i + 1] && a[|a| - 1] == s[j];
    assert b[0] == s[j + 1] && b[|b| - 1] == s[k] && q[0] == s[k + 1];
    Join4(g, s, p, a, b, q);
    SwapPieces(g, p, a, b, q);
    var r := p + b + a + q;
    assert SwapMove(s, i, j, k) == r;
    assert r[0] == s[0] && r[|r| - 1] == s[|s| - 1];
  }

  /** The second 3-opt case: the cost changes by the weight of the three new junctions less the three old ones. */
  lemma SwapReverseCost(g: Graph, s: seq<int>, i: nat, j: nat, k: nat)
    requires Undirected(g) && Linked(g, s) && i < j < k < |s| - 1
    requires (s[j], s[k]) in g.weight && (s[i + 1], s[k + 1]) in g.weight && (s[i], s[j + 1]) in g.weight
    requires (s[i], s[i + 1]) in g.weight && (s[j], s[j + 1]) in g.weight && (s[k], s[k + 1]) in g.weight
    ensures Rearranged(g, s, SwapReverseMove(s, i, j, k))
    ensures PathCost(g, SwapReverseMove(s, i, j, k)) + g.weight[(s[i], s[i + 1])] + g.weight[(s[j], s[j + 1])] + g.weight[(s[k], s[k + 1])] ==
      PathCost(g, s) + g.weight[(s[i], s[j + 1])] + g.weight[(s[j], s[k])] + g.weight[(s[i + 1], s[k + 1])]
  {
    var p, a, b, q := s[..i + 1], s[i + 1..j + 1], s[j + 1..k + 1], s[k + 1..];
    assert s == p + a + b + q;
    assert p[|p| - 1] == s[i] && a[0] == s[i + 1] && a[|a| - 1] == s[j];
    assert b[0] == s[j + 1] && b[|b| - 1] == s[k] && q[0] == s[k + 1];
    Join4(g, s, p, a, b, q);
    SwapReversePieces(g, p, a, b, q);
    var r := p + b + Reversed(a) + q;
    assert SwapReverseMove(s, i, j, k) == r;
    assert r[0] == s[0] && r[|r| - 1] == s[|s| - 1];
  }

  /** An improving 3-opt move leaves a path with the same ends and strictly lower cost. */
  lemma ThreeOptCost(g: Graph, s: seq<int>, i: nat, j: nat, k: nat)
    requires Undirected(g) && Linked(g, s) && i < j < k < |s| - 1 && ThreeOptImproves(g, s, i, j, k)
    ensures Rearranged(g, s, ThreeOptMove(g, s, i, j, k)) && PathCost(g, ThreeOptMove(g, s, i, j, k)) < PathCost(g, s)
  {
    LinkedPair(g, s, i);
    LinkedPair(g, s, j);
    LinkedPair(g, s, k);
    if (s[i], s[j + 1]) in g.weight && (s[j], s[k + 1]) in g.weight && (s[k], s[i + 1]) in g.weight {
      SwapCost(g, s, i, j, k);
    } else {
      SwapReverseCost(g, s, i, j, k);
    }
  }

  /** A path rearranged with both ends kept is still a cycle, of cost changed as the path's. */
  lemma RearrangedTour(g: Graph, before: seq<int>, after: seq<int>)
    requires Tour(g, before) && Rearranged(g, before, after)
    ensures Tour(g, after) && CycleCost(g, after) - PathCost(g, after) == CycleCost(g, before) - PathCost(g, before)
  {
  }

  // ---------------------------------------------------------------------------
  // The moves on the list
  // ---------------------------------------------------------------------------

  /** The slice assignment `hc[lo:lo+len(seg)] = seg`. */
  method AssignSlice(hc: array<int>, lo: nat, seg: seq<int>)
    requires lo + |seg| <= hc.Length
    modifies hc
    ensures hc[..] == old(hc[..])[..lo] + seg + old(hc[..])[lo + |seg|..]
  {
    ghost var before := hc[..];
    forall t | lo <= t < lo + |seg| {
      hc[t] := seg[t - lo];
    }
    SliceAssigned(before, hc[..], lo, seg);
  }

  /** The slice assignment `hc[i+1:j+1] = hc[j:i:-1]`. */
  method ReverseStretch(hc: array<int>, i: nat, j: nat)
    requires i < j < hc.Length
    modifies hc
    ensures hc[..] == TwoOptMove(old(hc[..]), i, j)
  {
    var seg := Reversed(hc[i + 1..j + 1]);
    AssignSlice(hc, i + 1, seg);
  }

  /** The slice assignment `hc[i+1:k+1] = hc[j+1:k+1] + hc[i+1:j+1]`. */
  method SwapStretches(hc: array<int>, i: nat, j: nat, k: nat)
    requires i < j < k < hc.Length
    modifies hc
    ensures hc[..] == SwapMove(old(hc[..]), i, j, k)
  {
    var seg := hc[j + 1..k + 1] + hc[i + 1..j + 1];
    AssignSlice(hc, i + 1, seg);
  }

  /** The slice assignment `hc[i+1:k+1] = hc[j+1:k+1] + hc[j:i:-1]`. */
  method SwapReverseStretches(hc: array<int>, i: nat, j: nat, k: nat)
    requires i < j < k < hc.Length
    modifies hc
    ensures hc[..] == SwapReverseMove(old(hc[..]), i, j, k)
  {
    var seg := hc[j + 1..k + 1] + Reversed(hc[i + 1..j + 1]);
    AssignSlice(hc, i + 1, seg);
  }

  /** One step of `_2opt`: reverse `hc[i+1..j]` when both new edges exist and weigh strictly less than the old two. */
  method TryTwoOpt(g: Graph, hc: array<int>, i: nat, j: nat) returns (moved: bool)
    requires Undirected(g) && Linked(g, hc[..]) && i < j < hc.Length - 1
    modifies hc
    ensures moved <==> TwoOptImproves(g, old(hc[..]), i, j)
    ensures hc[..] == if moved then TwoOptMove(old(hc[..]), i, j) else old(hc[..])
    ensures Rearranged(g, old(hc[..]), hc[..])
    ensures moved ==> PathCost(g, hc[..]) < PathCost(g, old(hc[..]))
  {
    moved := false;
    ghost var before := hc[..];
    var newE1, newE2 := GetEdge(g, hc[i], hc[j]), GetEdge(g, hc[i + 1], hc[j + 1]);
    if newE1.Some? && newE2.Some? {
      LinkedPair(g, before, i);
      LinkedPair(g, before, j);
      var oldW := g.weight[(hc[i], hc[i + 1])] + g.weight[(hc[j], hc[j + 1])];
      var newW := newE1.value + newE2.value;
      if oldW > newW {
        moved := true;
        ReverseStretch(hc, i, j);
        TwoOptCost(g, before, i, j);
      }
    }
  }

  /**
   * `_2opt`: every pair of cut points `i < j` at least `gap` apart with `j < len - 1` is tried in
   * turn on the current list, and a move is made whenever it strictly lowers the weight.
   * The list keeps its ends and stays a path; the result says whether any move was made.
   */
  method TwoOpt(g: Graph, hc: array<int>, gap: nat) returns (edited: bool)
    requires Undirected(g) && Linked(g, hc[..]) && gap >= 1
    modifies hc
    ensures Rearranged(g, old(hc[..]), hc[..])
    ensures edited ==> PathCost(g, hc[..]) < PathCost(g, old(hc[..]))
    ensures !edited ==> hc[..] == old(hc[..])
  {
    edited := false;
    for i := 0 to Upto(hc.Length - 1 - gap)
      invariant Rearranged(g, old(hc[..]), hc[..])
      invariant edited ==> PathCost(g, hc[..]) < PathCost(g, old(hc[..]))
      invariant !edited ==> hc[..] == old(hc[..])
    {
      for j := i + gap to hc.Length - 1
        invariant Rearranged(g, old(hc[..]), hc[..])
        invariant edited ==> PathCost(g, hc[..]) < PathCost(g, old(hc[..]))
        invariant !edited ==> hc[..] == old(hc[..])
      {
        var moved := TryTwoOpt(g, hc, i, j);
        edited := edited || moved;
      }
    }
  }

  /**
   * One step of `_3opt`. When the three first-case edges exist, the stretches `hc[i+1..j]` and
   * `hc[j+1..k]` change places if that strictly lowers the weight; only when one of them is
   * missing is the second case (the same with the first stretch reversed) considered.
   */
  method TryThreeOpt(g: Graph, hc: array<int>, i: nat, j: nat, k: nat) returns (moved: bool)
    requires Undirected(g) && Linked(g, hc[..]) && i < j < k < hc.Length - 1
    modifies hc
    ensures moved <==> ThreeOptImproves(g, old(hc[..]), i, j, k)
    ensures hc[..] == if moved then ThreeOptMove(g, old(hc[..]), i, j, k) else old(hc[..])
    ensures Rearranged(g, old(hc[..]), hc[..])
    ensures moved ==> PathCost(g, hc[..]) < PathCost(g, old(hc[..]))
  {
    moved := false;
    ghost var before := hc[..];
    var newE1, newE2, newE3 := GetEdge(g, hc[i], hc[j + 1]), GetEdge(g, hc[j], hc[k + 1]), GetEdge(g, hc[k], hc[i + 1]);
    var newE4, newE5, newE6 := GetEdge(g, hc[i], hc[j + 1]), GetEdge(g, hc[j], hc[k]), GetEdge(g, hc[i + 1], hc[k + 1]);
    LinkedPair(g, before, i);
    LinkedPair(g, before, j);
    LinkedPair(g, before, k);
    var oldW := g.weight[(hc[i], hc[i + 1])] + g.weight[(hc[j], hc[j + 1])] + g.weight[(hc[k], hc[k + 1])];
    if newE1.Some? && newE2.Some? && newE3.Some? {
      var newW := newE1.value + newE2.value + newE3.value;
      if oldW > newW {
        moved := true;
        SwapStretches(hc, i, j, k);
        ThreeOptCost(g, before, i, j, k);
      }
    } else if newE4.Some? && newE5.Some? && newE6.Some? {
      var newW := newE4.value + newE5.value + newE6.value;
      if oldW > newW {
        moved := true;
        SwapReverseStretches(hc, i, j, k);
        ThreeOptCost(g, before, i, j, k);
      }
    }
  }

  /**
   * `_3opt`: every triple of cut points `i < j < k`, consecutive ones at least `gap` apart and
   * `k < len - 1`, is tried in turn on the current list. The list keeps its ends and stays a
   * path; the result says whether any move was made.
   */
  method ThreeOpt(g: Graph, hc: array<int>, gap: nat) returns (edited: bool)
    requires Undirected(g) && Linked(g, hc[..]) && gap >= 1
    modifies hc
    ensures Rearranged(g, old(hc[..]), hc[..])
    ensures edited ==> PathCost(g, hc[..]) < PathCost(g, old(hc[..]))
    ensures !edited ==> hc[..] == old(hc[..])
  {
    edited := false;
    for i := 0 to Upto(hc.Length - 1 - 2 * gap)
      invariant Rearranged(g, old(hc[..]), hc[..])
      invariant edited ==> PathCost(g, hc[..]) < PathCost(g, old(hc[..]))
      invariant !edited ==> hc[..] == old(hc[..])
    {
      for j := i + gap to hc.Length - 1 - gap
        invariant Rearranged(g, old(hc[..]), hc[..])
        invariant edited ==> PathCost(g, hc[..]) < PathCost(g, old(hc[..]))
        invariant !edited ==> hc[..] == old(hc[..])
      {
        for k := j + gap to hc.Length - 1
          invariant Rearranged(g, old(hc[..]), hc[..])
          invariant edited ==> PathCost(g, hc[..]) < PathCost(g, old(hc[..]))
          invariant !edited ==> hc[..] == old(hc[..])
        {
          var moved := TryThreeOpt(g, hc, i, j, k);
          edited := edited || moved;
        }
      }
    }
  }

  /** `_rotate` with the shift `n = round(len(hc) * frac)` given: the list becomes `hc[n:] + hc[:n]`. */
  method Rotate(hc: array<int>, n: nat)
    modifies hc
    ensures hc[..] == RotatedLeft(old(hc[..]), n)
  {
    var rotated := hc[Shift(n, hc.Length)..] + hc[..Shift(n, hc.Length)];
    forall t | 0 <= t < hc.Length {
      hc[t] := rotated[t];
    }
  }

  /** Rotating a cycle listed open gives the same cycle, of the same cost. */
  lemma RotatedTour(g: Graph, s: seq<int>, n: nat)
    requires Tour(g, s)
    ensures Tour(g, RotatedLeft(s, n)) && CycleCost(g, RotatedLeft(s, n)) == CycleCost(g, s)
  {
    var m := Shift(n, |s|);
    assert RotatedLeft(s, n) == s[m..] + s[..m];
    CycleCostRotate(g, s, m);
  }

  // ---------------------------------------------------------------------------
  // The improvement loops and the cost of a cycle
  // ---------------------------------------------------------------------------

  /**
   * `two_three_opt` with the rotation `round(len(hc) / num_cycle)` given as `shift`: a 2-opt pass,
   * and a 3-opt pass when 2-opt changed nothing, repeated while they improve; the first pass
   * that improves nothing rotates the list and ends the loop, so the result is always `false`.
   * The list stays a cycle through the same vertices and gets no heavier.
   */
  method TwoThreeOpt(g: Graph, hc: array<int>, shift: nat) returns (edited: bool)
    requires Undirected(g) && Tour(g, hc[..])
    modifies hc
    ensures !edited
    ensures Tour(g, hc[..]) && multiset(hc[..]) == multiset(old(hc[..]))
    ensures CycleCost(g, hc[..]) <= CycleCost(g, old(hc[..]))
  {
    ghost var floor := WeightFloor(g.weight);
    CycleCostFloor(g, hc[..], floor);
    var cnt := 0;
    edited := false;
    while cnt < 1
      invariant Tour(g, hc[..]) && multiset(hc[..]) == multiset(old(hc[..]))
      invariant CycleCost(g, hc[..]) <= CycleCost(g, old(hc[..]))
      invariant CycleCost(g, hc[..]) >= hc.Length * floor
      invariant edited ==> cnt == 0
      decreases CycleCost(g, hc[..]) - hc.Length * floor, 1 - cnt
    {
      ghost var before := hc[..];
      edited := TwoOpt(g, hc, 2);
      if !edited {
        edited := ThreeOpt(g, hc, 2);
      }
      RearrangedTour(g, before, hc[..]);
      if edited {
        cnt := 0;
      } else {
        Rotate(hc, shift);
        RotatedTour(g, before, shift);
        cnt := cnt + 1;
      }
      CycleCostFloor(g, hc[..], floor);
    }
  }

  /**
   * `_2_3opt` with the rotation `round(len(hc) / num_cycle)` given as `shift`: 2-opt, else 3-opt,
   * else rotate and count; any improvement resets the count, and the loop ends after
   * `num_cycle` passes in a row improved nothing. The result is therefore always `false`, so the
   * caller's `while edited` loop runs once.
   */
  method TwoThreeOptRounds(g: Graph, hc: array<int>, numCycle: nat, shift: nat) returns (edited: bool)
    requires Undirected(g) && Tour(g, hc[..])
    modifies hc
    ensures !edited
    ensures Tour(g, hc[..]) && multiset(hc[..]) == multiset(old(hc[..]))
    ensures CycleCost(g, hc[..]) <= CycleCost(g, old(hc[..]))
  {
    ghost var floor := WeightFloor(g.weight);
    CycleCostFloor(g, hc[..], floor);
    var cnt := 0;
    edited := false;
    while cnt < numCycle
      invariant Tour(g, hc[..]) && multiset(hc[..]) == multiset(old(hc[..]))
      invariant CycleCost(g, hc[..]) <= CycleCost(g, old(hc[..]))
      invariant CycleCost(g, hc[..]) >= hc.Length * floor
      invariant edited ==> cnt < numCycle
      decreases CycleCost(g, hc[..]) - hc.Length * floor, numCycle - cnt
    {
      ghost var before := hc[..];
      edited := TwoOpt(g, hc, 1);
      if edited {
        cnt := 0;
      } else {
        edited := ThreeOpt(g, hc, 1);
        if edited {
          cnt := 0;
        } else {
          Rotate(hc, shift);
          RotatedTour(g, before, shift);
          cnt := cnt + 1;
        }
      }
      if edited {
        RearrangedTour(g, before, hc[..]);
      }
      CycleCostFloor(g, hc[..], floor);
    }
  }

  /** Python's `(i + 1) % n` is the next position round the end. */
  lemma NextPosition(i: nat, n: nat)
    requires i < n
    ensures (i + 1) % n == Succ(i, n)
  {
    if i + 1 < n {
      DivModUnique(i + 1, n, 0, i + 1);
    } else {
      DivModUnique(i + 1, n, 1, 0);
    }
  }

  /**
   * `get_cost`: the weights of every consecutive pair, the last vertex paired with the first.
   * A pair that is not an edge makes `get_edge` answer `None`, whose `.element()` raises
   * AttributeError; otherwise the result is the cost of the cycle.
   */
  method GetCost(g: Graph, hc: seq<int>) returns (r: Result<int, Error>)
    ensures r.Success? <==> Tour(g, hc)
    ensures r.Failure? ==> r.error == AttributeError
    ensures r.Success? ==> Tour(g, hc) && r.value == CycleCost(g, hc)
  {
    TourAround(g, hc);
    var cost := 0;
    for i := 0 to |hc|
      invariant LinkedAround(g, hc, i) && cost == Around(g, hc, i)
    {
      var next := (i + 1) % |hc|;
      NextPosition(i, |hc|);
      var e := GetEdge(g, hc[i], hc[next]);
      if e.None? {
        assert !LinkedAround(g, hc, |hc|) by {
          assert (hc[i], hc[Succ(i, |hc|)]) !in g.weight;
        }
        return Failure(AttributeError);
      }
      cost := cost + e.value;
    }
    AroundIsCycleCost(g, hc);
    return Success(cost);
  }
}
