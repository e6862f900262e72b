/**
 * Counting the ways to change an amount (project2/all_change.py): a table `T` of `n + 1` rows
 * (amounts in cents) and one column per denomination, filled bottom-up, where `T[i][j]` is the
 * number of ways to pay `i` cents with the first `j + 1` denominations.
 */
module AllChange {
  import opened Wrappers
  import opened Exceptions
  import opened Currencies
  import opened Primes

  /** The recurrence the table follows: ways that use `s[j]` at least once, plus ways that do not use it. */
  ghost function Ways(s: seq<int>, i: nat, j: nat): nat
    requires j < |s| && Positive(s)
    decreases i, j
  {
    if i == 0 then 1
    else (if i >= s[j] then Ways(s, i - s[j], j) else 0) + (if j >= 1 then Ways(s, i, j - 1) else 0)
  }

  // ---------------------------------------------------------------------------
  // An independent count: choose how many coins of each kind, largest kind first
  // ---------------------------------------------------------------------------

  /** The number of ways to pay `i` with the first `k` kinds: sum, over the number of coins of kind `k - 1`, of the ways to pay the rest. */
  ghost function Combos(s: seq<int>, i: nat, k: nat): nat
    requires k <= |s| && Positive(s)
    decreases k, i + 1
  {
    if k == 0 then (if i == 0 then 1 else 0)
    else
      DivBound(i, s[k - 1], i / s[k - 1]);
      UsingAtMost(s, i, k, i / s[k - 1])
  }

  /** The ways to pay `i` with the first `k` kinds using at most `c` coins of kind `k - 1`. */
  ghost function UsingAtMost(s: seq<int>, i: nat, k: nat, c: nat): nat
    requires 0 < k <= |s| && Positive(s) && c <= i / s[k - 1]
    decreases k, c
  {
    DivBound(i, s[k - 1], c);
    Combos(s, i - c * s[k - 1], k - 1) + (if c == 0 then 0 else UsingAtMost(s, i, k, c - 1))
  }

  lemma DivBound(i: nat, d: int, c: nat)
    requires d > 0 && c <= i / d
    ensures c * d <= i && c <= i
  {
    assert (i / d) * d <= i;
    assert c * d <= (i / d) * d;
  }

  lemma MulPred(c: nat, d: int)
    requires c >= 1
    ensures (c - 1) * d + d == c * d
  {
  }

  /** Taking at least one coin of kind `k - 1` is paying `s[k - 1]` less with at most one coin fewer. */
  lemma {:induction false} UsingAtMostShift(s: seq<int>, i: nat, k: nat, c: nat)
    requires 0 < k <= |s| && Positive(s) && 1 <= c <= i / s[k - 1]
    ensures i >= s[k - 1] && c - 1 <= (i - s[k - 1]) / s[k - 1]
    ensures UsingAtMost(s, i, k, c) == Combos(s, i, k - 1) + UsingAtMost(s, i - s[k - 1], k, c - 1)
    decreases c
  {
    var d := s[k - 1];
    DivBound(i, d, c);
    MulPred(c, d);
    DivModUnique(i - d, d, i / d - 1, i % d);
    if c > 1 {
      UsingAtMostShift(s, i, k, c - 1);
      MulPred(c - 1, d);
      assert i - c * d == (i - d) - (c - 1) * d;
    }
  }

  /** The count by number of coins of the last kind splits the same way as the table's recurrence. */
  lemma CombosStep(s: seq<int>, i: nat, k: nat)
    requires k < |s| && Positive(s)
    ensures Combos(s, i, k + 1) == Combos(s, i, k) + (if i >= s[k] then Combos(s, i - s[k], k + 1) else 0)
  {
    var d := s[k];
    var c := i / d;
    if i >= d {
      DivModUnique(i, d, 1 + (i - d) / d, (i - d) % d);
      UsingAtMostShift(s, i, k + 1, c);
    } else {
      DivModUnique(i, d, 0, i);
    }
  }

  /** With no amount left there is exactly one way: no coins at all. */
  lemma {:induction false} CombosZero(s: seq<int>, k: nat)
    requires k <= |s| && Positive(s)
    ensures Combos(s, 0, k) == 1
  {
    if k > 0 {
      CombosZero(s, k - 1);
      DivModUnique(0, s[k - 1], 0, 0);
    }
  }

  /** The table's recurrence counts exactly the choices of how many coins of each kind to use. */
  lemma {:induction false} WaysCountsCombos(s: seq<int>, i: nat, j: nat)
    requires j < |s| && Positive(s)
    ensures Ways(s, i, j) == Combos(s, i, j + 1)
    decreases i, j
  {
    if i == 0 {
      CombosZero(s, j + 1);
    } else {
      CombosStep(s, i, j);
      if i >= s[j] {
        WaysCountsCombos(s, i - s[j], j);
      }
      if j >= 1 {
        WaysCountsCombos(s, i, j - 1);
      }
    }
  }

  /** The documented example: denominations 10, 20 and 50 cents change 60 cents in five ways. */
  lemma SixtyCents()
    ensures Ways([10, 20, 50], 60, 2) == 5
  {
    var s := [10, 20, 50];
    assert Ways(s, 10, 0) == 1 by { assert Ways(s, 0, 0) == 1; }
    assert Ways(s, 20, 0) == 1;
    assert Ways(s, 30, 0) == 1;
    assert Ways(s, 40, 0) == 1;
    assert Ways(s, 50, 0) == 1;
    assert Ways(s, 60, 0) == 1;
    assert Ways(s, 10, 1) == 1;
    assert Ways(s, 20, 1) == 2 by { assert Ways(s, 0, 1) == 1; }
    assert Ways(s, 40, 1) == 3 by { assert Ways(s, 20, 1) == 2; }
    assert Ways(s, 60, 1) == 4 by { assert Ways(s, 40, 1) == 3; }
    assert Ways(s, 10, 2) == 1;
    assert Ways(s, 60, 2) == 5;
  }

  /**
   * One row of the table: cell `(i, j)` adds the cell `s[j]` rows up (when the denomination is not
   * larger than `i`) to the cell on its left. Reading a row past the end of the table is the
   * IndexError the source raises for a non-positive denomination; `false` reports it.
   */
  method FillRow(t: array2<nat>, s: seq<int>, i: nat) returns (ok: bool)
    requires 0 < i < t.Length0 && t.Length1 == |s|
    requires Positive(s) ==> forall a, b :: 0 <= a < i && 0 <= b < |s| ==> t[a, b] == Ways(s, a, b)
    modifies t
    ensures Positive(s) ==> ok
    ensures Positive(s) ==> forall a, b :: 0 <= a <= i && 0 <= b < |s| ==> t[a, b] == Ways(s, a, b)
  {
    for j := 0 to |s|
      invariant forall a, b :: 0 <= a < t.Length0 && 0 <= b < |s| && a != i ==> t[a, b] == old(t[a, b])
      invariant Positive(s) ==> forall b :: 0 <= b < j ==> t[i, b] == Ways(s, i, b)
    {
      var x := 0;
      if i - s[j] >= 0 {
        if i - s[j] >= t.Length0 {
          return false;
        }
        x := t[i - s[j], j];
      }
      var y := if j >= 1 then t[i, j - 1] else 0;
      t[i, j] := x + y;
    }
    return true;
  }

  /**
   * `all_change(cur, r)` with `r` given as `n` cents. Row 0 is all ones; every later cell adds the
   * ways that use denomination `j` (the cell `s[j]` rows up) to those that do not (the cell to
   * the left). The answer is the last cell of row `n`; with no denominations, or a negative
   * amount, the table has no such cell and the indexing raises IndexError.
   */
  method AllChangeCount(cur: Currency, n: int) returns (r: Result<nat, Error>)
    requires cur.Valid()
    ensures r.Failure? ==> r.error == IndexError
    ensures n < 0 || |cur.denominations| == 0 ==> r.Failure?
    ensures n >= 0 && |cur.denominations| > 0 && Positive(cur.denominations) ==>
      r == Success(Ways(cur.denominations, n, |cur.denominations| - 1))
  {
    var m := cur.NumDenominations();
    var s := cur.IterDenominations(false);
    if n < 0 || m == 0 {
      return Failure(IndexError);
    }
    var t := new nat[n + 1, m]((_, _) => 0);
    for j := 0 to m
      invariant forall b :: 0 <= b < j ==> t[0, b] == 1
    {
      t[0, j] := 1;
    }
    for i := 1 to n + 1
      invariant Positive(s) ==> forall a, b :: 0 <= a < i && 0 <= b < m ==> t[a, b] == Ways(s, a, b)
    {
      var ok := FillRow(t, s, i);
      if !ok {
        return Failure(IndexError);
      }
    }
    return Success(t[n, m - 1]);
  }
}
