/**
 * Minimum-coin change (project1/coin_change.py), over amounts in cents.
 *
 * `change_recurs` enumerates, depth first and largest denomination first, every way to pay the
 * amount as a sequence of coins, pushing `(number of coins, coins)` into a priority queue, and
 * answers the queue's minimum; with `canonical` set it follows only the largest fitting coin at
 * each step (greedy). `change` grows a table `solution` from 0 cents upwards, one cent at a time,
 * where each solved amount keeps the best way to extend a solved smaller amount by one coin.
 */
module CoinChange {
  import opened Wrappers
  import opened Exceptions
  import opened Currencies

  /** A priority-queue entry: the number of coins and the coins themselves. */
  type Entry = (int, seq<int>)

  function Sum(l: seq<int>): int
  {
    if l == [] then 0 else l[0] + Sum(l[1..])
  }

  /** `l` pays exactly `v` with coins of the denominations `ds`. */
  ghost predicate Represents(ds: seq<int>, l: seq<int>, v: int)
  {
    (forall i :: 0 <= i < |l| ==> l[i] in ds) && Sum(l) == v
  }

  ghost predicate Payable(ds: seq<int>, v: int)
  {
    exists l :: Represents(ds, l, v)
  }

  /** `l` is a way to pay `v` with no way using fewer coins. */
  ghost predicate Fewest(ds: seq<int>, l: seq<int>, v: int)
  {
    Represents(ds, l, v) && forall l' :: Represents(ds, l', v) ==> |l| <= |l'|
  }

  ghost predicate Descending(s: seq<int>)
  {
    forall i, j :: 0 <= i < j < |s| ==> s[i] > s[j]
  }

  // ---------------------------------------------------------------------------
  // Facts about sums of coins
  // ---------------------------------------------------------------------------

  lemma {:induction false} SumAppend(a: seq<int>, b: seq<int>)
    ensures Sum(a + b) == Sum(a) + Sum(b)
  {
    if a != [] {
      assert (a + b)[1..] == a[1..] + b;
      SumAppend(a[1..], b);
    } else {
      assert a + b == b;
    }
  }

  /** With positive denominations every coin is worth at least a cent, so a payment needs at least as many cents as coins. */
  lemma {:induction false} SumAtLeastCount(ds: seq<int>, l: seq<int>, v: int)
    requires Positive(ds) && Represents(ds, l, v)
    ensures v >= |l|
    ensures forall i :: 0 <= i < |l| ==> l[i] <= v
  {
    if l != [] {
      assert Represents(ds, l[1..], v - l[0]) by {
        assert forall i :: 0 <= i < |l[1..]| ==> l[1..][i] == l[i + 1];
      }
      SumAtLeastCount(ds, l[1..], v - l[0]);
      forall i | 0 <= i < |l|
        ensures l[i] <= v
      {
        if i > 0 {
          assert l[i] == l[1..][i - 1];
        }
      }
    }
  }

  /** Adding a coin at the end pays that much more. */
  lemma RepresentsSnoc(ds: seq<int>, l: seq<int>, v: int, d: int)
    requires Represents(ds, l, v) && d in ds
    ensures Represents(ds, l + [d], v + d)
  {
    SumAppend(l, [d]);
    assert Sum([d]) == d;
  }

  /** Dropping the last coin pays that much less. */
  lemma RepresentsInit(ds: seq<int>, l: seq<int>, v: int)
    requires Represents(ds, l, v) && l != []
    ensures l[|l| - 1] in ds && Represents(ds, l[..|l| - 1], v - l[|l| - 1])
  {
    var k := |l| - 1;
    assert l == l[..k] + [l[k]];
    SumAppend(l[..k], [l[k]]);
    assert Sum([l[k]]) == l[k];
  }

  /** Which coins make a payment depends only on which denominations exist, not on their order. */
  lemma SameCoins(ds: seq<int>, ds': seq<int>)
    requires multiset(ds) == multiset(ds')
    ensures forall x :: x in ds <==> x in ds'
    ensures forall l, v :: Represents(ds, l, v) <==> Represents(ds', l, v)
    ensures forall v :: Payable(ds, v) <==> Payable(ds', v)
    ensures forall l, v :: Fewest(ds, l, v) <==> Fewest(ds', l, v)
  {
    assert forall x :: x in ds <==> x in multiset(ds);
    assert forall x :: x in ds' <==> x in multiset(ds');
  }

  lemma SamePositive(ds: seq<int>, ds': seq<int>)
    requires multiset(ds) == multiset(ds') && Positive(ds)
    ensures Positive(ds')
  {
    assert forall x :: x in ds <==> x in multiset(ds);
    assert forall x :: x in ds' <==> x in multiset(ds');
    {
      forall j | 0 <= j < |ds'|
        ensures ds'[j] > 0
      {
        assert ds'[j] in ds;
        var k :| 0 <= k < |ds| && ds[k] == ds'[j];
      }
    }
  }

  /** Payments depend only on which denominations exist. */
  lemma SameMembers(ds: seq<int>, ds': seq<int>)
    requires forall x :: x in ds <==> x in ds'
    ensures forall v :: Payable(ds, v) <==> Payable(ds', v)
    ensures forall l, v :: Fewest(ds, l, v) <==> Fewest(ds', l, v)
  {
    forall l, v
      ensures Represents(ds, l, v) <==> Represents(ds', l, v)
    {
      forall i | 0 <= i < |l|
        ensures l[i] in ds <==> l[i] in ds'
      {
        var x := l[i];
        assert x in ds <==> x in ds';
      }
    }
  }

  /** The denominations worth at least a cent, in their order. */
  ghost function PositivePart(ds: seq<int>): (r: seq<int>)
    ensures Positive(r)
    ensures forall x :: x in r <==> x in ds && x > 0
  {
    if ds == [] then []
    else
      assert forall x :: x in ds <==> x == ds[0] || x in ds[1..];
      (if ds[0] > 0 then [ds[0]] else []) + PositivePart(ds[1..])
  }

  // ---------------------------------------------------------------------------
  // The priority queue's minimum
  // ---------------------------------------------------------------------------

  /**
   * `HeapPriorityQueue.min()` after additions only: the earliest added entry among those with the
   * least number of coins (a heap that only grows replaces its root only on a strictly smaller key).
   */
  function MinEntry(pq: seq<Entry>): (e: Entry)
    requires |pq| > 0
    ensures e in pq
    ensures forall k :: 0 <= k < |pq| ==> e.0 <= pq[k].0
  {
    if |pq| == 1 then pq[0]
    else
      var m := MinEntry(pq[..|pq| - 1]);
      assert forall k :: 0 <= k < |pq| - 1 ==> pq[..|pq| - 1][k] == pq[k];
      if pq[|pq| - 1].0 < m.0 then pq[|pq| - 1] else m
  }

  // ---------------------------------------------------------------------------
  // change_recurs: the enumeration
  // ---------------------------------------------------------------------------

  /**
   * The entries `_change_recursion(v, ...)` adds to the queue, in order, having already paid with
   * `cash` (`n` coins), when the denominations are visited in the order `ds`.
   */
  function Recursion(ds: seq<int>, v: int, n: int, cash: seq<int>, canonical: bool): seq<Entry>
    requires Positive(ds) || v == 0
    decreases v, |ds| + 1
  {
    if v == 0 then [(n, cash)] else Tries(ds, 0, v, n, cash, canonical)
  }

  /** The loop over the denominations from index `i` on: a coin larger than `v` is skipped; under `canonical` the first fitting coin ends the loop. */
  function Tries(ds: seq<int>, i: nat, v: int, n: int, cash: seq<int>, canonical: bool): seq<Entry>
    requires Positive(ds) && i <= |ds|
    decreases v, |ds| - i
  {
    if i == |ds| then []
    else if ds[i] > v then Tries(ds, i + 1, v, n, cash, canonical)
    else Recursion(ds, v - ds[i], n + 1, cash + [ds[i]], canonical) + (if canonical then [] else Tries(ds, i + 1, v, n, cash, canonical))
  }

  /** `_change_recursion`: pushes onto `pq` the entries of `Recursion`, recursing once per fitting coin. */
  method ChangeRecursion(value: int, ds: seq<int>, pq: seq<Entry>, n: int, cash: seq<int>, canonical: bool) returns (pq': seq<Entry>)
    requires Positive(ds) || value == 0
    ensures pq' == pq + Recursion(ds, value, n, cash, canonical)
    decreases value
  {
    if value == 0 {
      return pq + [(n, cash)];
    }
    pq' := pq;
    for i := 0 to |ds|
      invariant pq' + Tries(ds, i, value, n, cash, canonical) == pq + Tries(ds, 0, value, n, cash, canonical)
    {
      if ds[i] > value {
        continue;
      }
      var support := cash + [ds[i]];
      pq' := ChangeRecursion(value - ds[i], ds, pq', n + 1, support, canonical);
      if canonical {
        return;
      }
    }
  }

  /** Every recorded entry extends `cash` by coins that pay `v`, and counts them. */
  lemma {:induction false} RecursionSound(ds: seq<int>, v: int, n: int, cash: seq<int>, canonical: bool, e: Entry)
    requires Positive(ds) && e in Recursion(ds, v, n, cash, canonical)
    ensures |cash| <= |e.1| && e.1[..|cash|] == cash
    ensures Represents(ds, e.1[|cash|..], v) && e.0 == n + |e.1| - |cash|
    decreases v, |ds| + 1
  {
    if v == 0 {
      assert e == (n, cash);
      assert e.1[|cash|..] == [];
    } else {
      TriesSound(ds, 0, v, n, cash, canonical, e);
    }
  }

  lemma {:induction false} TriesSound(ds: seq<int>, i: nat, v: int, n: int, cash: seq<int>, canonical: bool, e: Entry)
    requires Positive(ds) && i <= |ds| && e in Tries(ds, i, v, n, cash, canonical)
    ensures |cash| <= |e.1| && e.1[..|cash|] == cash
    ensures Represents(ds, e.1[|cash|..], v) && e.0 == n + |e.1| - |cash|
    decreases v, |ds| - i
  {
    if ds[i] > v {
      TriesSound(ds, i + 1, v, n, cash, canonical, e);
    } else if e in Recursion(ds, v - ds[i], n + 1, cash + [ds[i]], canonical) {
      var d := ds[i];
      RecursionSound(ds, v - d, n + 1, cash + [d], canonical, e);
      var rest := e.1[|cash| + 1..];
      assert e.1[..|cash|] == (cash + [d])[..|cash|];
      assert e.1[|cash|..] == [d] + rest;
      assert ([d] + rest)[1..] == rest;
    } else {
      TriesSound(ds, i + 1, v, n, cash, canonical, e);
    }
  }

  /** A coin that fits at index `k` contributes its whole subtree of entries to the loop from any `i <= k`. */
  lemma {:induction false} TriesContain(ds: seq<int>, i: nat, k: nat, v: int, n: int, cash: seq<int>, e: Entry)
    requires Positive(ds) && i <= k < |ds| && ds[k] <= v
    requires e in Recursion(ds, v - ds[k], n + 1, cash + [ds[k]], false)
    ensures e in Tries(ds, i, v, n, cash, false)
    decreases k - i
  {
    if i < k {
      TriesContain(ds, i + 1, k, v, n, cash, e);
    }
  }

  /** Without `canonical`, every way to pay `v` (as an ordered list of coins) is recorded. */
  lemma {:induction false} RecursionComplete(ds: seq<int>, v: int, n: int, cash: seq<int>, l: seq<int>)
    requires Positive(ds) && Represents(ds, l, v)
    ensures (n + |l|, cash + l) in Recursion(ds, v, n, cash, false)
    decreases |l|
  {
    SumAtLeastCount(ds, l, v);
    if v == 0 {
      assert l == [] && cash + l == cash;
    } else {
      var d := l[0];
      var k :| 0 <= k < |ds| && ds[k] == d;
      assert Represents(ds, l[1..], v - d) by {
        assert forall i :: 0 <= i < |l[1..]| ==> l[1..][i] == l[i + 1];
      }
      RecursionComplete(ds, v - d, n + 1, cash + [d], l[1..]);
      assert (cash + [d]) + l[1..] == cash + l;
      TriesContain(ds, 0, k, v, n, cash, (n + |l|, cash + l));
    }
  }

  // ---------------------------------------------------------------------------
  // change_recurs with canonical=True: the greedy choice
  // ---------------------------------------------------------------------------

  /** Some coin is not above `v`. */
  ghost predicate Fits(coins: seq<int>, v: int)
  {
    exists j :: 0 <= j < |coins| && coins[j] <= v
  }

  /** `d` is the largest coin not above `v`. */
  ghost predicate LargestFit(coins: seq<int>, v: int, d: int)
  {
    d in coins && d <= v && forall j :: 0 <= j < |coins| && coins[j] <= v ==> coins[j] <= d
  }

  ghost predicate SameElements(ds: seq<int>, coins: seq<int>)
  {
    forall x :: x in ds <==> x in coins
  }

  /** Among the coins not above `v`, if any, there is a largest. */
  lemma {:induction false} LargestFitting(coins: seq<int>, v: int) returns (d: int)
    requires Fits(coins, v)
    ensures LargestFit(coins, v, d)
  {
    var c := coins[0];
    var rest := coins[1..];
    assert forall j :: 0 < j < |coins| ==> coins[j] == rest[j - 1];
    if Fits(rest, v) {
      var d' := LargestFitting(rest, v);
      d := if c <= v && c > d' then c else d';
      assert d' in coins;
    } else {
      var j :| 0 <= j < |coins| && coins[j] <= v;
      if j > 0 {
        assert rest[j - 1] <= v;
      }
      d := c;
    }
  }

  lemma LargestFitUnique(coins: seq<int>, v: int, d1: int, d2: int)
    requires LargestFit(coins, v, d1) && LargestFit(coins, v, d2)
    ensures d1 == d2
  {
    var j1 :| 0 <= j1 < |coins| && coins[j1] == d1;
    var j2 :| 0 <= j2 < |coins| && coins[j2] == d2;
  }

  lemma HasLargestFitting(coins: seq<int>, v: int)
    requires Fits(coins, v)
    ensures exists d :: LargestFit(coins, v, d)
  {
    var d := LargestFitting(coins, v);
  }

  /** The largest coin not above `v`. */
  ghost function LargestBelow(coins: seq<int>, v: int): (d: int)
    requires Fits(coins, v)
    ensures LargestFit(coins, v, d)
  {
    HasLargestFitting(coins, v);
    var d :| LargestFit(coins, v, d);
    d
  }

  /**
   * The greedy way to pay `v`: take the largest coin not above what is left, until nothing is
   * left; it fails, without backtracking, when every coin exceeds what is left.
   */
  ghost function Greedy(coins: seq<int>, v: int): Option<seq<int>>
    requires Positive(coins) || v == 0
    decreases v
  {
    if v == 0 then Some([])
    else if !Fits(coins, v) then None
    else
      var d := LargestBelow(coins, v);
      var j :| 0 <= j < |coins| && coins[j] == d;
      match Greedy(coins, v - d)
      case None => None
      case Some(g) => Some([d] + g)
  }

  function GreedyEntries(g: Option<seq<int>>, n: int, cash: seq<int>): seq<Entry>
  {
    match g
    case None => []
    case Some(l) => [(n + |l|, cash + l)]
  }

  /** With `canonical` and the denominations largest first, the recursion records exactly the greedy payment, if it reaches zero. */
  lemma {:induction false} CanonicalIsGreedy(ds: seq<int>, coins: seq<int>, v: int, n: int, cash: seq<int>)
    requires Positive(ds) && Positive(coins) && Descending(ds) && SameElements(ds, coins)
    ensures Recursion(ds, v, n, cash, true) == GreedyEntries(Greedy(coins, v), n, cash)
    decreases v, |ds| + 1
  {
    if v != 0 {
      CanonicalTries(ds, coins, 0, v, n, cash);
    } else {
      assert cash + [] == cash;
    }
  }

  lemma {:induction false} CanonicalTries(ds: seq<int>, coins: seq<int>, i: nat, v: int, n: int, cash: seq<int>)
    requires Positive(ds) && Positive(coins) && Descending(ds) && SameElements(ds, coins)
    requires v != 0 && i <= |ds| && forall j :: 0 <= j < i ==> ds[j] > v
    ensures Tries(ds, i, v, n, cash, true) == GreedyEntries(Greedy(coins, v), n, cash)
    decreases v, |ds| - i
  {
    if i == |ds| {
    } else if ds[i] > v {
      CanonicalTries(ds, coins, i + 1, v, n, cash);
    } else {
      var d := ds[i];
      assert d in coins;
      forall j | 0 <= j < |coins| && coins[j] <= v
        ensures coins[j] <= d
      {
        assert coins[j] in ds;
      }
      assert LargestFit(coins, v, d);
      LargestFitUnique(coins, v, d, LargestBelow(coins, v));
      CanonicalIsGreedy(ds, coins, v - d, n + 1, cash + [d]);
      match Greedy(coins, v - d)
      case None =>
      case Some(g) =>
        assert (cash + [d]) + g == cash + ([d] + g);
    }
  }

  /** The greedy payment is a payment. */
  lemma {:induction false} GreedyRepresents(coins: seq<int>, v: int)
    requires Positive(coins) && Greedy(coins, v).Some?
    ensures Represents(coins, Greedy(coins, v).value, v)
    decreases v
  {
    if v != 0 {
      var d := LargestBelow(coins, v);
      GreedyRepresents(coins, v - d);
      var g := Greedy(coins, v - d).value;
      assert ([d] + g)[1..] == g;
    }
  }

  /**
   * The documented caveat: greedy change is not always the fewest coins. With coins of 1, 3 and 4
   * cents, greedy pays 6 cents as 4 + 1 + 1, while 3 + 3 takes two coins.
   */
  lemma GreedyNotFewest()
    ensures Recursion([4, 3, 1], 6, 0, [], true) == [(3, [4, 1, 1])]
    ensures Represents([4, 3, 1], [3, 3], 6)
  {
    var ds := [4, 3, 1];
    assert [4, 1] + [1] == [4, 1, 1] && [4] + [1] == [4, 1] && [] + [4] == [4];
    assert Recursion(ds, 0, 3, [4, 1, 1], true) == [(3, [4, 1, 1])];
    assert Tries(ds, 2, 1, 2, [4, 1], true) == [(3, [4, 1, 1])];
    assert Recursion(ds, 1, 2, [4, 1], true) == [(3, [4, 1, 1])];
    assert Tries(ds, 2, 2, 1, [4], true) == [(3, [4, 1, 1])];
    assert Recursion(ds, 2, 1, [4], true) == [(3, [4, 1, 1])];
    assert Tries(ds, 0, 6, 0, [], true) == [(3, [4, 1, 1])];
    assert Sum([3, 3]) == 6;
  }

  /** What the queue's minimum is, when the enumeration from nothing recorded something. */
  lemma EnumerationMin(ds: seq<int>, coins: seq<int>, value: int, canonical: bool)
    requires Positive(ds) && Descending(ds) && multiset(ds) == multiset(coins) && Positive(coins)
    requires Recursion(ds, value, 0, [], canonical) != []
    ensures var e := MinEntry(Recursion(ds, value, 0, [], canonical));
      && Represents(coins, e.1, value) && e.0 == |e.1|
      && (!canonical ==> Fewest(coins, e.1, value))
      && (canonical ==> Greedy(coins, value) == Some(e.1))
  {
    var e := MinEntry(Recursion(ds, value, 0, [], canonical));
    SameCoins(ds, coins);
    RecursionSound(ds, value, 0, [], canonical, e);
    assert e.1[0..] == e.1;
    if !canonical {
      forall l | Represents(ds, l, value)
        ensures e.0 <= |l|
      {
        RecursionComplete(ds, value, 0, [], l);
        assert [] + l == l;
      }
    } else {
      CanonicalIsGreedy(ds, coins, value, 0, []);
    }
  }

  /** What an empty queue means. */
  lemma EnumerationEmpty(ds: seq<int>, coins: seq<int>, value: int, canonical: bool)
    requires Positive(ds) && Descending(ds) && multiset(ds) == multiset(coins) && Positive(coins)
    requires Recursion(ds, value, 0, [], canonical) == []
    ensures !canonical ==> !Payable(coins, value)
    ensures canonical ==> Greedy(coins, value).None?
  {
    SameCoins(ds, coins);
    if !canonical && Payable(ds, value) {
      var l :| Represents(ds, l, value);
      RecursionComplete(ds, value, 0, [], l);
    }
    if canonical {
      CanonicalIsGreedy(ds, coins, value, 0, []);
    }
  }

  /**
   * `change_recurs(value, currency, canonical)`: the queue's minimum, or ValueError when nothing
   * was recorded. Without `canonical` that is a payment with the fewest coins (and ValueError
   * exactly when the amount cannot be paid); with it, the greedy payment. Nothing is paid for
   * nothing whatever the denominations: the base case records `(0, [])` before any coin is tried.
   */
  method ChangeRecurs(value: int, cur: Currency, canonical: bool) returns (r: Result<Entry, Error>)
    requires cur.Valid() && (Positive(cur.denominations) || value == 0)
    ensures value == 0 ==> r == Success((0, []))
    ensures r.Failure? ==> r.error == ValueError
    ensures r.Success? ==> Represents(cur.denominations, r.value.1, value) && r.value.0 == |r.value.1|
    ensures !canonical ==> (r.Success? <==> Payable(cur.denominations, value))
    ensures !canonical && r.Success? ==> Fewest(cur.denominations, r.value.1, value)
    ensures canonical ==> (r.Success? <==> Greedy(cur.denominations, value).Some?)
    ensures canonical && r.Success? ==> r.value.1 == Greedy(cur.denominations, value).value
  {
    var ds := cur.IterDenominations(true);
    if value == 0 {
      var p := ChangeRecursion(value, ds, [], 0, [], canonical);
      assert Represents(cur.denominations, [], 0);
      return Success(MinEntry(p));
    }
    SamePositive(cur.denominations, ds);
    var p := ChangeRecursion(value, ds, [], 0, [], canonical);
    assert p == Recursion(ds, value, 0, [], canonical);
    if p != [] {
      EnumerationMin(ds, cur.denominations, value, canonical);
      return Success(MinEntry(p));
    } else {
      EnumerationEmpty(ds, cur.denominations, value, canonical);
      return Failure(ValueError);
    }
  }

  // ---------------------------------------------------------------------------
  // change: the table grown one cent at a time
  // ---------------------------------------------------------------------------

  /** The entries `_change_dynamic(v, ...)` adds: one per coin `d <= v` whose remainder `v - d` is solved. */
  function Offers(ds: seq<int>, i: nat, v: int, solution: map<int, Entry>): seq<Entry>
    requires i <= |ds|
    decreases |ds| - i
  {
    if i == |ds| then []
    else if ds[i] > v || v - ds[i] !in solution then Offers(ds, i + 1, v, solution)
    else
      var s := solution[v - ds[i]];
      [(1 + s.0, s.1 + [ds[i]])] + Offers(ds, i + 1, v, solution)
  }

  /** `_change_dynamic`: pushes onto `pq` the entries of `Offers`. */
  method ChangeDynamic(value: int, ds: seq<int>, pq: seq<Entry>, solution: map<int, Entry>) returns (pq': seq<Entry>)
    ensures pq' == pq + Offers(ds, 0, value, solution)
  {
    pq' := pq;
    for i := 0 to |ds|
      invariant pq' + Offers(ds, i, value, solution) == pq + Offers(ds, 0, value, solution)
    {
      if ds[i] > value {
        continue;
      }
      var newValue := value - ds[i];
      if newValue !in solution {
        continue;
      }
      var s := solution[newValue];
      pq' := pq' + [(1 + s.0, s.1 + [ds[i]])];
    }
  }

  /** Every offer extends the solution of `v - d` by a coin `d`. */
  lemma {:induction false} OfferShape(ds: seq<int>, i: nat, v: int, solution: map<int, Entry>, e: Entry)
    requires i <= |ds| && e in Offers(ds, i, v, solution)
    ensures e.1 != [] && e.1[|e.1| - 1] in ds && e.1[|e.1| - 1] <= v && v - e.1[|e.1| - 1] in solution
    ensures e == (1 + solution[v - e.1[|e.1| - 1]].0, solution[v - e.1[|e.1| - 1]].1 + [e.1[|e.1| - 1]])
    decreases |ds| - i
  {
    if !(ds[i] > v || v - ds[i] !in solution) && e == Offers(ds, i, v, solution)[0] {
    } else {
      OfferShape(ds, i + 1, v, solution, e);
    }
  }

  /** Every coin `d <= v` whose remainder is solved makes an offer. */
  lemma {:induction false} OfferMade(ds: seq<int>, i: nat, k: nat, v: int, solution: map<int, Entry>)
    requires i <= k < |ds| && ds[k] <= v && v - ds[k] in solution
    ensures (1 + solution[v - ds[k]].0, solution[v - ds[k]].1 + [ds[k]]) in Offers(ds, i, v, solution)
    decreases k - i
  {
    if i < k {
      OfferMade(ds, i + 1, k, v, solution);
    }
  }

  /** The table after amount `c`: exactly the payable amounts in `0..c`, each with a fewest-coin payment and its count. */
  ghost predicate Solved(ds: seq<int>, solution: map<int, Entry>, c: int)
  {
    && (forall a :: a in solution ==> 0 <= a <= c)
    && (forall a :: 0 <= a <= c ==> (a in solution <==> Payable(ds, a)))
    && (forall a :: a in solution ==> Fewest(ds, solution[a].1, a) && solution[a].0 == |solution[a].1|)
  }

  lemma SolvedStart(ds: seq<int>)
    requires Positive(ds)
    ensures Solved(ds, map[0 := (0, [])], 0)
  {
    forall l | Represents(ds, l, 0)
      ensures 0 <= |l|
    {
    }
    assert Represents(ds, [], 0);
  }

  /** A payment of `c > 0` cents ends in some coin `d` after a payment of `c - d`, which the table has solved. */
  lemma {:induction false} LastCoin(ds: seq<int>, solution: map<int, Entry>, c: int, l: seq<int>) returns (k: nat)
    requires Positive(ds) && Solved(ds, solution, c - 1) && c > 0 && Represents(ds, l, c)
    ensures l != [] && k < |ds| && ds[k] == l[|l| - 1] && ds[k] <= c && c - ds[k] in solution
    ensures solution[c - ds[k]].0 + 1 <= |l|
  {
    SumAtLeastCount(ds, l, c);
    RepresentsInit(ds, l, c);
    var d := l[|l| - 1];
    k :| 0 <= k < |ds| && ds[k] == d;
    assert Payable(ds, c - d);
  }

  /**
   * Solving amount `c` from the offers keeps the table exact and optimal over the positive
   * denominations: a coin worth nothing or less never offers, since its remainder `c - d` is
   * not below `c` and so not yet in the table.
   */
  lemma SolvedStep(ds: seq<int>, solution: map<int, Entry>, c: int, pq: seq<Entry>)
    requires Solved(PositivePart(ds), solution, c - 1) && c > 0 && pq == Offers(ds, 0, c, solution)
    ensures pq == [] ==> Solved(PositivePart(ds), solution, c) && !Payable(PositivePart(ds), c)
    ensures pq != [] ==> Solved(PositivePart(ds), solution[c := MinEntry(pq)], c) && Payable(PositivePart(ds), c)
  {
    if pq == [] {
      NoOfferUnpayable(ds, solution, c);
      SolvedSkip(PositivePart(ds), solution, c);
    } else {
      MinOfferFewest(ds, solution, c, pq);
      SolvedExtend(PositivePart(ds), solution, c, MinEntry(pq));
    }
  }

  /** A positive denomination sits at some index of the list. */
  lemma PositiveIndex(ds: seq<int>, d: int) returns (k: nat)
    requires d in PositivePart(ds)
    ensures k < |ds| && ds[k] == d
  {
    k :| 0 <= k < |ds| && ds[k] == d;
  }

  /** A payment of `c` would offer through its last coin: no offer means `c` cannot be paid. */
  lemma NoOfferUnpayable(ds: seq<int>, solution: map<int, Entry>, c: int)
    requires Solved(PositivePart(ds), solution, c - 1) && c > 0 && Offers(ds, 0, c, solution) == []
    ensures !Payable(PositivePart(ds), c)
  {
    var ps := PositivePart(ds);
    if Payable(ps, c) {
      var l :| Represents(ps, l, c);
      var k := LastCoin(ps, solution, c, l);
      var k' := PositiveIndex(ds, ps[k]);
      OfferMade(ds, 0, k', c, solution);
      assert false;
    }
  }

  /** The least offer pays `c` with the fewest coins of the positive denominations. */
  lemma {:induction false} MinOfferFewest(ds: seq<int>, solution: map<int, Entry>, c: int, pq: seq<Entry>)
    requires Solved(PositivePart(ds), solution, c - 1) && c > 0 && pq == Offers(ds, 0, c, solution) && pq != []
    ensures Fewest(PositivePart(ds), MinEntry(pq).1, c) && MinEntry(pq).0 == |MinEntry(pq).1|
  {
    var ps := PositivePart(ds);
    var e := MinEntry(pq);
    OfferShape(ds, 0, c, solution, e);
    var d := e.1[|e.1| - 1];
    assert d in ps;
    RepresentsSnoc(ps, solution[c - d].1, c - d, d);
    forall l | Represents(ps, l, c)
      ensures |e.1| <= |l|
    {
      var k := LastCoin(ps, solution, c, l);
      var k' := PositiveIndex(ds, ps[k]);
      OfferMade(ds, 0, k', c, solution);
    }
  }

  lemma SolvedSkip(ds: seq<int>, solution: map<int, Entry>, c: int)
    requires Solved(ds, solution, c - 1) && !Payable(ds, c)
    ensures Solved(ds, solution, c)
  {
  }

  lemma SolvedExtend(ds: seq<int>, solution: map<int, Entry>, c: int, e: Entry)
    requires c > 0 && Solved(ds, solution, c - 1) && Fewest(ds, e.1, c) && e.0 == |e.1|
    ensures Solved(ds, solution[c := e], c) && Payable(ds, c)
  {
    assert Represents(ds, e.1, c);
    var s := solution[c := e];
    forall a | a in s
      ensures 0 <= a <= c && Fewest(ds, s[a].1, a) && s[a].0 == |s[a].1|
    {
      if a != c {
        assert a in solution;
      }
    }
    forall a | 0 <= a <= c
      ensures a in s <==> Payable(ds, a)
    {
      if a < c {
        assert a in s <==> a in solution;
      }
    }
  }

  /** `k` coins of `d` cents pay `k * d` cents. */
  lemma {:induction false} Copies(ds: seq<int>, d: int, k: nat)
    requires d in ds
    ensures Represents(ds, seq(k, _ => d), k * d)
  {
    if k > 0 {
      Copies(ds, d, k - 1);
      var l := seq(k - 1, _ => d);
      RepresentsSnoc(ds, l, (k - 1) * d, d);
      assert l + [d] == seq(k, _ => d);
    }
  }

  lemma AtLeastFactor(d: int, k: int)
    requires d >= 1 && k >= 1
    ensures d * k >= k
  {
  }

  /**
   * `change(value, currency)`: advance one cent at a time, solving each amount that some coin
   * reaches from a solved one, and stop at the first solved amount not below `value`; then answer
   * `solution[value]`, or ValueError when `value` was never solved. Only the positive
   * denominations ever offer. The source's loop never ends when no amount above 0 can be paid,
   * that is when no denomination is positive; the precondition excludes exactly that case.
   */
  method Change(value: int, cur: Currency) returns (r: Result<Entry, Error>)
    requires cur.Valid() && exists j :: 0 <= j < |cur.denominations| && cur.denominations[j] > 0
    ensures r.Failure? ==> r.error == ValueError
    ensures r.Success? <==> Payable(PositivePart(cur.denominations), value)
    ensures r.Success? ==> Fewest(PositivePart(cur.denominations), r.value.1, value) && r.value.0 == |r.value.1|
  {
    var ds := cur.IterDenominations(true);
    ghost var ps := PositivePart(ds);
    SameCoins(ds, cur.denominations);
    assert ds[0] in ps by {
      var j :| 0 <= j < |cur.denominations| && cur.denominations[j] > 0;
      assert cur.denominations[j] in ds;
    }
    var solution := map[0 := (0, [])];
    SolvedStart(ps);
    var currentValue := 0;
    ghost var copies := if value < 1 then 1 else value;
    ghost var bound := ds[0] * copies;
    Copies(ps, ds[0], copies);
    AtLeastFactor(ds[0], copies);
    assert Payable(ps, bound);
    while true
      invariant 0 <= currentValue < bound && value <= bound
      invariant Solved(ps, solution, currentValue)
      decreases bound - currentValue
    {
      currentValue := currentValue + 1;
      var p := ChangeDynamic(currentValue, ds, [], solution);
      SolvedStep(ds, solution, currentValue, p);
      if p != [] {
        solution := solution[currentValue := MinEntry(p)];
      } else {
        continue;
      }
      if currentValue >= value {
        break;
      }
    }
    SameMembers(ps, PositivePart(cur.denominations));
    if value in solution {
      return Success(solution[value]);
    } else {
      if Payable(ps, value) {
        var l :| Represents(ps, l, value);
        SumAtLeastCount(ps, l, value);
      }
      return Failure(ValueError);
    }
  }
}
