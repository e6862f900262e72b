/**
 * `opt_search(T, k, c1, c2)` (project2/kc1c2_experimental_valutation.py:8-54): collect a
 * candidate `(count, node)` for the nodes met from `c1` up to `c2`, sort the candidates by
 * count, largest first, and answer the nodes of the shortest prefix whose counts reach `k`.
 *
 * As written, the test `p not in solution` compares a node with `(count, node)` pairs and so
 * never fails: a node holding several in-range keys becomes several candidates and can be
 * answered more than once. `OptSearchAsWritten` models that walk and `RepeatedRoot` shows a
 * tree where the answer repeats the root; `OptSearch` is the walk that skips nodes it already
 * holds, and for it the answer is a cover with the fewest nodes.
 */
module OptCover {
  import opened Wrappers
  import opened Exceptions
  import opened ABTreeNodes
  import opened ABTreeNav
  import opened ABTreeSearch
  import opened ABTreeMapLayer
  import opened CoverPositions
  import opened KCover
  import opened CoverRank

  /** The walk of lines 28-41 stops after the last item or at an item beyond `[c1, c2]`. */
  ghost predicate WalkEnds<V>(root: Node<V>, c1: int, c2: int, g: nat)
  {
    g <= |Inorder(root)| && (g < |Inorder(root)| ==> !InRange(c1, c2, Inorder(root)[g].key))
  }

  // ---------------------------------------------------------------------------
  // The walk as written: one candidate per visited item
  // ---------------------------------------------------------------------------

  /** `ps` are the positions of the items `g0, g0 + 1, ...`, each with an in-range key. */
  ghost predicate Visits<V>(root: Node<V>, c1: int, c2: int, g0: nat, ps: seq<(seq<nat>, nat)>)
  {
    forall j :: 0 <= j < |ps| ==>
      && IsPosition(root, ps[j])
      && GIndex(root, ps[j].0, ps[j].1) == g0 + j
      && InRange(c1, c2, KeyAt(root, ps[j]))
  }

  /** The candidate appended for each visited position: the in-range count of its node. */
  function AsWrittenCandidates<V>(root: Node<V>, c1: int, c2: int, ps: seq<(seq<nat>, nat)>): (r: seq<Candidate>)
    requires forall j :: 0 <= j < |ps| ==> ValidPath(root, ps[j].0)
    ensures |r| == |ps|
    ensures forall j :: 0 <= j < |ps| ==> r[j] == (NodeCount(root, ps[j].0, c1, c2), ps[j].0)
  {
    seq(|ps|, j requires 0 <= j < |ps| => (NodeCount(root, ps[j].0, c1, c2), ps[j].0))
  }

  /** One more visited item: one more candidate, for its node. */
  lemma VisitsGrow<V>(root: Node<V>, c1: int, c2: int, g0: nat, ps: seq<(seq<nat>, nat)>, p: seq<nat>, i: nat)
    requires Visits(root, c1, c2, g0, ps)
    requires IsPosition(root, (p, i)) && GIndex(root, p, i) == g0 + |ps| && InRange(c1, c2, KeyAt(root, (p, i)))
    ensures Visits(root, c1, c2, g0, ps + [(p, i)])
    ensures AsWrittenCandidates(root, c1, c2, ps + [(p, i)])
         == AsWrittenCandidates(root, c1, c2, ps) + [(NodeCount(root, p, c1, c2), p)]
  {
  }

  /**
   * Lines 28-41 with line 31 as written, from the position `(p0, i0)`: every visited item adds
   * a candidate for its node, whether or not the node is already a candidate. The walk steps
   * with the corrected `after`.
   */
  method CandidatesAsWritten<V>(root: Node<V>, c1: int, c2: int, p0: seq<nat>, i0: nat)
    returns (cands: seq<Candidate>, ghost ps: seq<(seq<nat>, nat)>)
    requires Searchable(root) && IsPosition(root, (p0, i0))
    ensures Visits(root, c1, c2, GIndex(root, p0, i0), ps)
    ensures WalkEnds(root, c1, c2, GIndex(root, p0, i0) + |ps|)
    ensures cands == AsWrittenCandidates(root, c1, c2, ps)
  {
    var p, i := p0, i0;
    ghost var g0 := GIndex(root, p, i);
    SearchableAlong(root, p);
    GIndexAt(root, p, i);
    cands, ps := [], [];
    while InRange(c1, c2, KeyAt(root, (p, i)))
      invariant IsPosition(root, (p, i)) && GIndex(root, p, i) == g0 + |ps|
      invariant Visits(root, c1, c2, g0, ps)
      invariant cands == AsWrittenCandidates(root, c1, c2, ps)
      decreases |Inorder(root)| - |ps|
    {
      SearchableAlong(root, p);
      GIndexAt(root, p, i);
      // `p not in solution` compares a node with (count, node) pairs, so it always holds
      var found := CountNode(NodeAt(root, p).elements, c1, c2);
      VisitsGrow(root, c1, c2, g0, ps, p, i);
      cands := cands + [(found, p)];
      ps := ps + [(p, i)];
      PositionAfterIsNext(root, p, i);
      var follow := PositionAfter(root, p, i).value;
      if follow.None? {
        return;
      }
      p, i := follow.value.0, follow.value.1;
    }
    SearchableAlong(root, p);
    GIndexAt(root, p, i);
  }

  /**
   * The run of `opt_search` as written from item `g0` of the tree: it visits the in-range items
   * `ps` up to the end of the walk, and `r` is what lines 43-54 select from their candidates.
   */
  ghost predicate AsWrittenRun<V>(root: Node<V>, c1: int, c2: int, k: int, g0: nat, ps: seq<(seq<nat>, nat)>,
                                  r: Result<Option<seq<seq<nat>>>, Error>)
  {
    && Visits(root, c1, c2, g0, ps)
    && WalkEnds(root, c1, c2, g0 + |ps|)
    && Selects(SortByCount(AsWrittenCandidates(root, c1, c2, ps)), k, r)
  }

  /**
   * `opt_search` with line 31 as written and the corrected `after`. On an empty tree `T.search` raises AttributeError; when every key
   * is below `c1` the answer is None; otherwise the walk visits the in-range items from the
   * first key at least `c1`, and the answer is what lines 43-54 select from the sorted
   * candidates, one per visited item.
   */
  method OptSearchAsWritten<V>(t: ABTreeMap<V>, k: int, c1: int, c2: int)
    returns (r: Result<Option<seq<seq<nat>>>, Error>, ghost ps: seq<(seq<nat>, nat)>)
    requires t.Valid()
    ensures t.size == 0 <==> r == Failure(AttributeError)
    ensures t.size > 0 && (forall u :: 0 <= u < |t.Items()| ==> t.Items()[u].key < c1) ==> r == Success(None)
    ensures t.size > 0 && (exists u :: 0 <= u < |t.Items()| && c1 <= t.Items()[u].key) ==>
      t.root.Some? && AsWrittenRun(t.root.value, c1, c2, k, Locate(t.Items(), c1).1, ps, r)
  {
    ps := [];
    var start := StartPosition(t, c1);
    if start.Failure? {
      return Failure(start.error), ps;
    }
    if start.value.None? {
      return Success(None), ps;
    }
    var root := t.root.value;
    var (p, i) := start.value.value;
    var cands;
    cands, ps := CandidatesAsWritten(root, c1, c2, p, i);
    r := ShortestPrefix(SortByCount(cands), k);
    assert AsWrittenRun(root, c1, c2, k, GIndex(root, p, i), ps, r);
  }

  // ---------------------------------------------------------------------------
  // A tree on which the answer repeats a node
  // ---------------------------------------------------------------------------

  /** A root with keys 2 and 4 above three leaves with keys 1, 3 and 5. */
  function Example(): Node<int>
  {
    Node([Item(2, 0), Item(4, 0)], [Node([Item(1, 0)], []), Node([Item(3, 0)], []), Node([Item(5, 0)], [])])
  }

  /** The inorder visit of `Example()` is the keys 1 to 5. */
  lemma ExampleInorder()
    ensures Searchable(Example())
    ensures Inorder(Example()) == [Item(1, 0), Item(2, 0), Item(3, 0), Item(4, 0), Item(5, 0)]
  {
    var n := Example();
    assert Searchable(n.children[0]) && Searchable(n.children[1]) && Searchable(n.children[2]);
    assert Interleaved(n.elements[1..][1..], n.children[1..][1..]) == [];
  }

  /**
   * With `c1 = 2`, `c2 = 4` and `k = 3` on `Example()`, and with the corrected `after`, the walk
   * visits the root, the middle leaf and the root again, so the root is a candidate twice with
   * count 2. Sorted, the two root candidates come first and reach 3, and the answer is the root
   * twice, though the root holds only two keys in `[2, 4]`. With `after` as written the walk
   * never gets that far (see `ExampleAfterRaises`).
   */
  lemma RepeatedRoot(ps: seq<(seq<nat>, nat)>, r: Result<Option<seq<seq<nat>>>, Error>)
    requires AsWrittenRun(Example(), 2, 4, 3, Locate(Inorder(Example()), 2).1, ps, r)
    ensures r == Success(Some([[], []]))
    ensures Covered(Example(), [[]], 2, 4) == 2 < 3
  {
    ExampleWalk(ps);
    ExampleCandidates();
    ExampleSorted();
    ExampleSelects(r);
    var root1: seq<seq<nat>> := [[]];
    assert root1[..0] == [];
  }

  /**
   * `after` as written stops the example at its first step: the walk starts at the root's index
   * 0, and the root holds two elements, so the call at line 37 raises IndexError before the root
   * can be met again.
   */
  lemma ExampleAfterRaises()
    ensures ValidPath(Example(), []) && GIndex(Example(), [], 0) == Locate(Inorder(Example()), 2).1
    ensures AfterAsWritten(Example(), [], 0) == Failure(IndexError)
  {
    ExampleStart();
    AfterGuardRejects(Example(), [], 0);
  }

  /** The first key at least 2 is item 1 of the inorder visit. */
  lemma ExampleStart()
    ensures Searchable(Example()) && Locate(Inorder(Example()), 2).1 == 1
    ensures |Inorder(Example())| == 5 && Inorder(Example())[4].key == 5
    ensures forall u :: 1 <= u < 4 ==> InRange(2, 4, Inorder(Example())[u].key)
  {
    ExampleInorder();
    LowerBoundUnique(Inorder(Example()), 2, 1);
  }

  /** The walk from key 2 with `c2 = 4` visits three items. */
  lemma ExampleWalk(ps: seq<(seq<nat>, nat)>)
    requires Visits(Example(), 2, 4, Locate(Inorder(Example()), 2).1, ps)
    requires WalkEnds(Example(), 2, 4, Locate(Inorder(Example()), 2).1 + |ps|)
    ensures ps == [([], 0), ([1], 0), ([], 1)]
  {
    var n := Example();
    ExampleStart();
    if |ps| >= 4 {
      SearchableAlong(n, ps[3].0);
      GIndexAt(n, ps[3].0, ps[3].1);
      assert false;
    }
    ExampleVisits(ps);
  }

  /** The candidates of the three visited items: the root, the middle leaf, the root. */
  lemma ExampleCandidates()
    ensures AsWrittenCandidates(Example(), 2, 4, [([], 0), ([1], 0), ([], 1)]) == [(2, []), (1, [1]), (2, [])]
  {
    var n := Example();
    assert NodeAt(n, [1]) == n.children[1];
    assert NodeCount(n, [], 2, 4) == 2;
    assert NodeCount(n, [1], 2, 4) == 1;
  }

  /** The sort puts the second root candidate after the first and before the leaf. */
  lemma ExampleSorted()
    ensures SortByCount([(2, []), (1, [1]), (2, [])]) == [(2, []), (2, []), (1, [1])]
  {
    var cands: seq<Candidate> := [(2, []), (1, [1]), (2, [])];
    assert cands[..2][..1] == [(2, [])];
    var two: seq<Candidate> := [(2, []), (1, [1])];
    assert SortByCount(cands[..2]) == two;
    assert two[1..] == [(1, [1])];
    assert InsertByCount((2, []), two) == [(2, [])] + InsertByCount((2, []), [(1, [1])]);
    assert SortByCount(cands) == InsertByCount((2, []), two);
  }

  /** The two root candidates are the shortest prefix reaching 3. */
  lemma ExampleSelects(r: Result<Option<seq<seq<nat>>>, Error>)
    requires Selects([(2, []), (2, []), (1, [1])], 3, r)
    ensures r == Success(Some([[], []]))
  {
    var sorted: seq<Candidate> := [(2, []), (2, []), (1, [1])];
    assert sorted[..1] == [(2, [])];
    assert Sum(sorted[..1]) == 2;
    assert sorted[..2][..1] == [(2, [])];
    assert Sum(sorted[..2]) == 4;
    assert Nodes(sorted[..2]) == [[], []];
  }

  /** The three positions the walk visits in `Example()`: root key 2, middle leaf, root key 4. */
  lemma ExampleVisits(ps: seq<(seq<nat>, nat)>)
    requires Searchable(Example()) && |ps| == 3 && Visits(Example(), 2, 4, 1, ps)
    ensures ps == [([], 0), ([1], 0), ([], 1)]
  {
    var n := Example();
    assert ItemsBefore(n, [1]) == Interleaved(n.elements, n.children[..1]) + ItemsBefore(n.children[1], []);
    assert n.children[..0] == [];
    InterleavedStep(n.elements, n.children, 1);
    InterleavedStep(n.elements, n.children, 2);
    assert IsPosition(n, ([], 0)) && GIndex(n, [], 0) == 1;
    assert IsPosition(n, ([1], 0)) && GIndex(n, [1], 0) == 2;
    assert IsPosition(n, ([], 1)) && GIndex(n, [], 1) == 3;
    GIndexInjective(n, ps[0], ([], 0));
    GIndexInjective(n, ps[1], ([1], 0));
    GIndexInjective(n, ps[2], ([], 1));
  }

  // ---------------------------------------------------------------------------
  // The walk that skips nodes it already holds
  // ---------------------------------------------------------------------------

  /** Each candidate pairs a node of the tree with the node's in-range count. */
  ghost predicate CountsOf<V>(root: Node<V>, c1: int, c2: int, cands: seq<Candidate>)
  {
    forall j :: 0 <= j < |cands| ==> ValidPath(root, cands[j].1) && cands[j].0 == NodeCount(root, cands[j].1, c1, c2)
  }

  /**
   * The walk has visited the items `g0 .. g - 1`: their nodes, each once, are the candidates,
   * and the candidates' counts add up to the in-range keys of those nodes.
   */
  ghost predicate Collected<V>(root: Node<V>, c1: int, c2: int, g0: nat, cands: seq<Candidate>,
                               seen: set<(seq<nat>, nat)>, g: nat)
  {
    Walked(root, c1, c2, g0, Nodes(cands), Sum(cands), seen, g) && CountsOf(root, c1, c2, cands)
  }

  /** A node added with its own count keeps every candidate paired with its count. */
  lemma CountsGrow<V>(root: Node<V>, c1: int, c2: int, cands: seq<Candidate>, p: seq<nat>)
    requires CountsOf(root, c1, c2, cands) && ValidPath(root, p)
    ensures CountsOf(root, c1, c2, cands + [(NodeCount(root, p, c1, c2), p)])
  {
  }

  /** One candidate appended: its node goes at the end of the nodes and its count into the sum. */
  lemma Appended(cands: seq<Candidate>, x: Candidate)
    ensures Nodes(cands + [x]) == Nodes(cands) + [x.1]
    ensures Sum(cands + [x]) == Sum(cands) + x.0
  {
    assert (cands + [x])[..|cands|] == cands;
  }

  /** A node met for the first time joins the candidates with its count. */
  lemma CollectNew<V>(root: Node<V>, c1: int, c2: int, g0: nat, cands: seq<Candidate>,
                      seen: set<(seq<nat>, nat)>, p: seq<nat>, i: nat)
    requires Searchable(root) && IsPosition(root, (p, i)) && InRange(c1, c2, KeyAt(root, (p, i)))
    requires Collected(root, c1, c2, g0, cands, seen, GIndex(root, p, i)) && p !in Nodes(cands)
    ensures Collected(root, c1, c2, g0, cands + [(NodeCount(root, p, c1, c2), p)], seen + {(p, i)}, GIndex(root, p, i) + 1)
  {
    SearchableAlong(root, p);
    GIndexAt(root, p, i);
    var cands' := cands + [(NodeCount(root, p, c1, c2), p)];
    VisitNew(root, c1, c2, Nodes(cands), p, i);
    Appended(cands, (NodeCount(root, p, c1, c2), p));
    WalkedStep(root, c1, c2, g0, Nodes(cands), Sum(cands), seen, GIndex(root, p, i), p, i, Nodes(cands'), Sum(cands'));
    CountsGrow(root, c1, c2, cands, p);
  }

  /** A node met again leaves the candidates as they are. */
  lemma CollectOld<V>(root: Node<V>, c1: int, c2: int, g0: nat, cands: seq<Candidate>,
                      seen: set<(seq<nat>, nat)>, p: seq<nat>, i: nat)
    requires Searchable(root) && IsPosition(root, (p, i)) && InRange(c1, c2, KeyAt(root, (p, i)))
    requires Collected(root, c1, c2, g0, cands, seen, GIndex(root, p, i)) && p in Nodes(cands)
    ensures Collected(root, c1, c2, g0, cands, seen + {(p, i)}, GIndex(root, p, i) + 1)
  {
    SearchableAlong(root, p);
    GIndexAt(root, p, i);
    assert (p, i) in Counted(root, Nodes(cands), c1, c2);
    WalkedStep(root, c1, c2, g0, Nodes(cands), Sum(cands), seen, GIndex(root, p, i), p, i, Nodes(cands), Sum(cands));
  }

  /** One round of the loop: the node of `(p, i)` becomes a candidate unless it is one already. */
  method VisitOnce<V>(root: Node<V>, c1: int, c2: int, ghost g0: nat, cands: seq<Candidate>,
                      ghost seen: set<(seq<nat>, nat)>, p: seq<nat>, i: nat)
    returns (cands': seq<Candidate>, ghost seen': set<(seq<nat>, nat)>)
    requires Searchable(root) && IsPosition(root, (p, i)) && InRange(c1, c2, KeyAt(root, (p, i)))
    requires Collected(root, c1, c2, g0, cands, seen, GIndex(root, p, i))
    ensures cands' == if p in Nodes(cands) then cands else cands + [(NodeCount(root, p, c1, c2), p)]
    ensures Collected(root, c1, c2, g0, cands', seen', GIndex(root, p, i) + 1)
  {
    seen' := seen + {(p, i)};
    if p !in Nodes(cands) {
      var found := CountNode(NodeAt(root, p).elements, c1, c2);
      cands' := cands + [(found, p)];
      CollectNew(root, c1, c2, g0, cands, seen, p, i);
    } else {
      cands' := cands;
      CollectOld(root, c1, c2, g0, cands, seen, p, i);
    }
  }

  /** Before the first round nothing is collected. */
  lemma CollectStart<V>(root: Node<V>, c1: int, c2: int, g0: nat)
    requires g0 <= |Inorder(root)|
    ensures Collected(root, c1, c2, g0, [], {}, g0)
  {
    assert Nodes([]) == [];
  }

  /**
   * Lines 28-41 with the membership test on the candidates' nodes, from the position
   * `(p0, i0)`: the walk runs to the end of the tree or to the first key beyond `c2`.
   */
  method CandidatesOnce<V>(root: Node<V>, c1: int, c2: int, p0: seq<nat>, i0: nat)
    returns (cands: seq<Candidate>, ghost seen: set<(seq<nat>, nat)>, ghost g: nat)
    requires Searchable(root) && IsPosition(root, (p0, i0))
    ensures Collected(root, c1, c2, GIndex(root, p0, i0), cands, seen, g)
    ensures WalkEnds(root, c1, c2, g)
  {
    var p, i := p0, i0;
    ghost var g0 := GIndex(root, p, i);
    SearchableAlong(root, p);
    GIndexAt(root, p, i);
    cands, seen, g := [], {}, g0;
    CollectStart(root, c1, c2, g0);
    while InRange(c1, c2, KeyAt(root, (p, i)))
      invariant IsPosition(root, (p, i)) && g == GIndex(root, p, i)
      invariant Collected(root, c1, c2, g0, cands, seen, g)
      decreases |Inorder(root)| - g
    {
      cands, seen := VisitOnce(root, c1, c2, g0, cands, seen, p, i);
      PositionAfterIsNext(root, p, i);
      var follow := PositionAfter(root, p, i).value;
      g := g + 1;
      if follow.None? {
        break;
      }
      p, i := follow.value.0, follow.value.1;
    }
    SearchableAlong(root, p);
    GIndexAt(root, p, i);
  }

  /** Some visited position sits at each place `u` of the walk: `|seen|` positions fill `g - g0` places. */
  lemma SeenHits<V>(root: Node<V>, seen: set<(seq<nat>, nat)>, g0: nat, g: nat, u: nat) returns (x: (seq<nat>, nat))
    requires Searchable(root) && |seen| == g - g0 && g0 <= u < g
    requires forall y :: y in seen ==> IsPosition(root, y) && g0 <= GIndex(root, y.0, y.1) < g
    ensures x in seen && IsPosition(root, x) && GIndex(root, x.0, x.1) == u
  {
    if forall y :: y in seen ==> GIndex(root, y.0, y.1) != u {
      PositionsBound(root, seen, Span(g0, g) - {u});
      assert false;
    }
    x :| x in seen && GIndex(root, x.0, x.1) == u;
  }

  /** A finished walk from the first key at least `c1` has met every node holding an in-range key. */
  lemma NodesComplete<V>(root: Node<V>, c1: int, c2: int, g0: nat, sol: seq<seq<nat>>, found: int,
                         seen: set<(seq<nat>, nat)>, g: nat, q: seq<nat>)
    requires Searchable(root) && SortedKeys(Inorder(root)) && g0 == Locate(Inorder(root), c1).1
    requires Walked(root, c1, c2, g0, sol, found, seen, g) && WalkEnds(root, c1, c2, g)
    requires ValidPath(root, q) && NodeCount(root, q, c1, c2) > 0
    ensures q in sol
  {
    var es := NodeAt(root, q).elements;
    CountPositive(es, c1, c2);
    var j :| 0 <= j < |es| && InRange(c1, c2, es[j].key);
    SearchableAlong(root, q);
    GIndexAt(root, q, j);
    var u := GIndex(root, q, j);
    InRangeSpan(Inorder(root), c1, c2, g0, g);
    assert u in InRangeIndices(Inorder(root), c1, c2);
    var y := SeenHits(root, seen, g0, g, u);
    GIndexInjective(root, y, (q, j));
  }

  // ---------------------------------------------------------------------------
  // Sorting and selecting complete candidates
  // ---------------------------------------------------------------------------

  /** The counts of candidates that pair each node with its count add up to the nodes' coverage. */
  lemma {:induction false} SumIsCovered<V>(root: Node<V>, c1: int, c2: int, cands: seq<Candidate>)
    requires CountsOf(root, c1, c2, cands)
    ensures AllPaths(root, Nodes(cands)) && Sum(cands) == Covered(root, Nodes(cands), c1, c2)
    decreases |cands|
  {
    if |cands| > 0 {
      var c0 := cands[..|cands| - 1];
      SumIsCovered(root, c1, c2, c0);
      assert Nodes(cands)[..|cands| - 1] == Nodes(c0);
    }
  }

  /** Every sorted candidate is one of the candidates. */
  lemma SortedFrom(cands: seq<Candidate>, j: nat) returns (t: nat)
    requires j < |SortByCount(cands)|
    ensures t < |cands| && cands[t] == SortByCount(cands)[j]
  {
    assert SortByCount(cands)[j] in multiset(cands);
    t :| 0 <= t < |cands| && cands[t] == SortByCount(cands)[j];
  }

  /** Every candidate is among the sorted candidates. */
  lemma SortedTo(cands: seq<Candidate>, t: nat) returns (j: nat)
    requires t < |cands|
    ensures j < |SortByCount(cands)| && SortByCount(cands)[j] == cands[t]
  {
    assert cands[t] in multiset(SortByCount(cands));
    j :| 0 <= j < |SortByCount(cands)| && SortByCount(cands)[j] == cands[t];
  }

  /** Sorting keeps each candidate paired with its count, and the total. */
  lemma SortedCounts<V>(root: Node<V>, c1: int, c2: int, cands: seq<Candidate>)
    requires CountsOf(root, c1, c2, cands) && forall j :: 0 <= j < |cands| ==> cands[j].0 > 0
    ensures var sorted := SortByCount(cands);
      && CountsOf(root, c1, c2, sorted) && (forall j :: 0 <= j < |sorted| ==> sorted[j].0 > 0)
      && Sum(sorted) == Sum(cands) && |sorted| == |cands|
  {
    var sorted := SortByCount(cands);
    SortSum(cands);
    assert |sorted| == |multiset(sorted)| == |multiset(cands)| == |cands|;
    forall j | 0 <= j < |sorted|
      ensures ValidPath(root, sorted[j].1) && sorted[j].0 == NodeCount(root, sorted[j].1, c1, c2) && sorted[j].0 > 0
    {
      var t := SortedFrom(cands, j);
    }
  }

  /** Sorting keeps the nodes, each once. */
  lemma SortedNodes<V>(root: Node<V>, c1: int, c2: int, cands: seq<Candidate>)
    requires CountsOf(root, c1, c2, cands) && NoRepeats(Nodes(cands))
    requires CountsOf(root, c1, c2, SortByCount(cands))
    ensures NoRepeats(Nodes(SortByCount(cands)))
    ensures forall q :: q in Nodes(cands) ==> q in Nodes(SortByCount(cands))
  {
    var sorted := SortByCount(cands);
    assert NoRepeats(cands) by {
      assert forall a, b :: 0 <= a < b < |cands| ==> Nodes(cands)[a] != Nodes(cands)[b];
    }
    PermNoRepeats(cands, sorted);
    forall q | q in Nodes(cands) ensures q in Nodes(sorted) {
      var t :| 0 <= t < |cands| && Nodes(cands)[t] == q;
      var j := SortedTo(cands, t);
      assert Nodes(sorted)[j] == q;
    }
  }

  /** The nodes of `q` that hold an in-range key, in order. */
  ghost function Positive<V>(root: Node<V>, c1: int, c2: int, q: seq<seq<nat>>): (r: seq<seq<nat>>)
    requires AllPaths(root, q)
    ensures |r| <= |q| && AllPaths(root, r)
    ensures forall j :: 0 <= j < |r| ==> r[j] in q && NodeCount(root, r[j], c1, c2) > 0
    ensures Covered(root, r, c1, c2) == Covered(root, q, c1, c2)
    ensures NoRepeats(q) ==> NoRepeats(r)
    decreases |q|
  {
    if |q| == 0 then []
    else
      var q0 := q[..|q| - 1];
      var r0 := Positive(root, c1, c2, q0);
      var last := q[|q| - 1];
      if NodeCount(root, last, c1, c2) > 0 then
        assert (r0 + [last])[..|r0|] == r0;
        r0 + [last]
      else
        r0
  }

  /** Where `x` stands in `s`. */
  ghost function IndexIn(s: seq<seq<nat>>, x: seq<nat>): (t: nat)
    requires x in s
    ensures t < |s| && s[t] == x
  {
    var t :| 0 <= t < |s| && s[t] == x; t
  }

  /** For each node of `q`, where it stands among the candidates. */
  ghost function Ranks(sorted: seq<Candidate>, q: seq<seq<nat>>): (ix: seq<nat>)
    requires forall j :: 0 <= j < |q| ==> q[j] in Nodes(sorted)
    ensures |ix| == |q| && forall j :: 0 <= j < |q| ==> ix[j] < |sorted| && sorted[ix[j]].1 == q[j]
    decreases |q|
  {
    if |q| == 0 then [] else Ranks(sorted, q[..|q| - 1]) + [IndexIn(Nodes(sorted), q[|q| - 1])]
  }

  /** The candidates of the nodes of `q` count what `q` covers. */
  lemma {:induction false} RanksSum<V>(root: Node<V>, c1: int, c2: int, sorted: seq<Candidate>, q: seq<seq<nat>>)
    requires CountsOf(root, c1, c2, sorted) && AllPaths(root, q)
    requires forall j :: 0 <= j < |q| ==> q[j] in Nodes(sorted)
    ensures SumAt(sorted, Ranks(sorted, q)) == Covered(root, q, c1, c2)
    decreases |q|
  {
    if |q| > 0 {
      var q0 := q[..|q| - 1];
      RanksSum(root, c1, c2, sorted, q0);
      var ix := Ranks(sorted, q);
      assert ix[..|ix| - 1] == Ranks(sorted, q0);
    }
  }

  /** No list of distinct tree nodes whose in-range keys reach `k` is shorter than `nodes`. */
  ghost predicate Fewest<V>(root: Node<V>, c1: int, c2: int, k: int, nodes: seq<seq<nat>>)
  {
    forall q :: NoRepeats(q) && AllPaths(root, q) && Covered(root, q, c1, c2) >= k ==> |nodes| <= |q|
  }

  /**
   * With every node that holds an in-range key among the candidates, sorted by count, largest
   * first: when the first `m - 1` candidates stay below `k > 0`, so do any `m - 1` distinct nodes.
   */
  lemma FewestNodes<V>(root: Node<V>, c1: int, c2: int, sorted: seq<Candidate>, k: int, m: nat, q: seq<seq<nat>>)
    requires Descending(sorted) && CountsOf(root, c1, c2, sorted) && NoRepeats(Nodes(sorted))
    requires forall x :: ValidPath(root, x) && NodeCount(root, x, c1, c2) > 0 ==> x in Nodes(sorted)
    requires m <= |sorted| && forall j :: 1 <= j < m ==> Sum(sorted[..j]) < k
    requires k > 0 && NoRepeats(q) && AllPaths(root, q) && Covered(root, q, c1, c2) >= k
    ensures m <= |q|
  {
    if |q| < m {
      var pos := Positive(root, c1, c2, q);
      var ix := Ranks(sorted, pos);
      RanksSum(root, c1, c2, sorted, pos);
      assert NoRepeats(ix);
      TopSum(sorted, ix);
    }
  }

  /**
   * What lines 43-54 make of complete candidates: ValueError exactly when they count nothing,
   * None exactly when their counts stay below `k`, and otherwise distinct nodes reaching `k`
   * that are as few as any such list.
   */
  lemma ChosenCover<V>(root: Node<V>, c1: int, c2: int, k: int, cands: seq<Candidate>,
                       r: Result<Option<seq<seq<nat>>>, Error>)
    requires CountsOf(root, c1, c2, cands) && Cover(root, Nodes(cands), c1, c2)
    requires forall x :: ValidPath(root, x) && NodeCount(root, x, c1, c2) > 0 ==> x in Nodes(cands)
    requires Selects(SortByCount(cands), k, r)
    ensures r.Failure? <==> Sum(cands) == 0
    ensures r.Failure? ==> r.error == ValueError
    ensures r.Success? ==> (r.value.None? <==> Sum(cands) < k)
    ensures r.Success? && r.value.Some? ==>
      && Cover(root, r.value.value, c1, c2) && Covered(root, r.value.value, c1, c2) >= k
      && (k > 0 ==> Fewest(root, c1, c2, k, r.value.value))
  {
    var sorted := SortByCount(cands);
    assert forall j :: 0 <= j < |cands| ==> cands[j].0 > 0 by {
      assert forall j :: 0 <= j < |cands| ==> Nodes(cands)[j] == cands[j].1;
    }
    SortedCounts(root, c1, c2, cands);
    ChosenOutcome(cands, sorted, k, r);
    if r.Success? && r.value.Some? {
      ChosenSome(root, c1, c2, k, cands, r.value.value);
    }
  }

  /** The nodes chosen from the sorted candidates cover at least `k` with as few nodes as any cover. */
  lemma ChosenSome<V>(root: Node<V>, c1: int, c2: int, k: int, cands: seq<Candidate>, nodes: seq<seq<nat>>)
    requires CountsOf(root, c1, c2, cands) && Cover(root, Nodes(cands), c1, c2)
    requires forall x :: ValidPath(root, x) && NodeCount(root, x, c1, c2) > 0 ==> x in Nodes(cands)
    requires forall j :: 0 <= j < |cands| ==> cands[j].0 > 0
    requires ShortestReaching(SortByCount(cands), k, nodes)
    ensures Cover(root, nodes, c1, c2) && Covered(root, nodes, c1, c2) >= k
    ensures k > 0 ==> Fewest(root, c1, c2, k, nodes)
  {
    var sorted := SortByCount(cands);
    SortedCounts(root, c1, c2, cands);
    SortedNodes(root, c1, c2, cands);
    assert Cover(root, Nodes(sorted), c1, c2) by {
      assert forall j :: 0 <= j < |sorted| ==> Nodes(sorted)[j] == sorted[j].1;
    }
    PrefixCover(root, c1, c2, sorted, k, nodes);
    if k > 0 {
      PrefixFewest(root, c1, c2, sorted, k, nodes);
    }
  }

  /** With positive counts, the selection fails exactly on no candidates and finds none exactly below `k`. */
  lemma ChosenOutcome(cands: seq<Candidate>, sorted: seq<Candidate>, k: int, r: Result<Option<seq<seq<nat>>>, Error>)
    requires forall j :: 0 <= j < |cands| ==> cands[j].0 > 0
    requires Sum(sorted) == Sum(cands) && |sorted| == |cands| && Selects(sorted, k, r)
    ensures r.Failure? <==> Sum(cands) == 0
    ensures r.Failure? ==> r.error == ValueError
    ensures r.Success? ==> (r.value.None? <==> Sum(cands) < k)
  {
    if |cands| > 0 {
      assert Sum(cands) >= cands[|cands| - 1].0 > 0;
    }
  }

  /** The nodes of the shortest prefix reaching `k` are distinct nodes covering at least `k`. */
  lemma PrefixCover<V>(root: Node<V>, c1: int, c2: int, sorted: seq<Candidate>, k: int, nodes: seq<seq<nat>>)
    requires CountsOf(root, c1, c2, sorted) && Cover(root, Nodes(sorted), c1, c2)
    requires ShortestReaching(sorted, k, nodes)
    ensures Cover(root, nodes, c1, c2) && Covered(root, nodes, c1, c2) >= k
  {
    var pre := sorted[..|nodes|];
    assert CountsOf(root, c1, c2, pre);
    SumIsCovered(root, c1, c2, pre);
    assert forall j :: 0 <= j < |nodes| ==> nodes[j] == Nodes(sorted)[j];
  }

  /** The shortest prefix reaching `k > 0` of complete sorted candidates has the fewest nodes. */
  lemma PrefixFewest<V>(root: Node<V>, c1: int, c2: int, sorted: seq<Candidate>, k: int, nodes: seq<seq<nat>>)
    requires Descending(sorted) && CountsOf(root, c1, c2, sorted) && NoRepeats(Nodes(sorted))
    requires forall x :: ValidPath(root, x) && NodeCount(root, x, c1, c2) > 0 ==> x in Nodes(sorted)
    requires k > 0 && ShortestReaching(sorted, k, nodes)
    ensures Fewest(root, c1, c2, k, nodes)
  {
    forall q | NoRepeats(q) && AllPaths(root, q) && Covered(root, q, c1, c2) >= k ensures |nodes| <= |q| {
      FewestNodes(root, c1, c2, sorted, k, |nodes|, q);
    }
  }

  /**
   * `opt_search` with the membership test on the candidates' nodes. On an empty tree
   * AttributeError; when some key is at least `c1` but none lies in `[c1, c2]`, the unpacking of
   * the empty candidate list raises ValueError. Otherwise the answer is a list exactly when the
   * tree holds at least `k` keys in `[c1, c2]` (and at least one): distinct nodes, each holding
   * such a key, that together hold at least `k`, and no list of distinct nodes that reaches `k`
   * is shorter.
   */
  method OptSearch<V>(t: ABTreeMap<V>, k: int, c1: int, c2: int) returns (r: Result<Option<seq<seq<nat>>>, Error>)
    requires t.Valid()
    ensures t.size == 0 <==> r == Failure(AttributeError)
    ensures r.Failure? ==> r.error == AttributeError || r.error == ValueError
    ensures r == Failure(ValueError) <==>
      t.size > 0 && CountInRange(t.Items(), c1, c2) == 0 && exists u :: 0 <= u < |t.Items()| && c1 <= t.Items()[u].key
    ensures r.Success? ==> (r.value.Some? <==> 0 < CountInRange(t.Items(), c1, c2) && k <= CountInRange(t.Items(), c1, c2))
    ensures r.Success? && r.value.Some? ==>
      && t.root.Some? && Cover(t.root.value, r.value.value, c1, c2)
      && Covered(t.root.value, r.value.value, c1, c2) >= k
      && (k > 0 ==> Fewest(t.root.value, c1, c2, k, r.value.value))
  {
    var start := StartPosition(t, c1);
    if start.Failure? {
      return Failure(start.error);
    }
    if start.value.None? {
      NoneInRange(t.Items(), c1, c2);
      return Success(None);
    }
    var root := t.root.value;
    var (p, i) := start.value.value;
    var cands, seen, g := CandidatesOnce(root, c1, c2, p, i);
    ghost var g0 := GIndex(root, p, i);
    CoveredBound(root, Nodes(cands), c1, c2);
    WalkComplete(root, c1, c2, g0, Nodes(cands), Sum(cands), seen, g);
    forall x | ValidPath(root, x) && NodeCount(root, x, c1, c2) > 0 ensures x in Nodes(cands) {
      NodesComplete(root, c1, c2, g0, Nodes(cands), Sum(cands), seen, g, x);
    }
    r := ShortestPrefix(SortByCount(cands), k);
    ChosenCover(root, c1, c2, k, cands, r);
  }
}
