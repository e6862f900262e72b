/**
 * The selection half of `opt_search` (project2/kc1c2_experimental_valutation.py:43-54): the
 * candidates `(count, node)` are sorted by count, largest first, and the shortest prefix whose
 * counts reach `k` is the answer. Taking the largest counts first is what makes the prefix
 * short: no choice of fewer distinct candidates reaches a larger total.
 */
module CoverRank {
  import opened Wrappers
  import opened Exceptions
  import opened CoverPositions

  /** A candidate of `opt_search`: the in-range count of a node and the node. */
  type Candidate = (nat, seq<nat>)

  /** `_, solution = zip(*solution)`: the nodes of the candidates. */
  function Nodes(cs: seq<Candidate>): (r: seq<seq<nat>>)
    ensures |r| == |cs| && forall j :: 0 <= j < |cs| ==> r[j] == cs[j].1
  {
    seq(|cs|, j requires 0 <= j < |cs| => cs[j].1)
  }

  /** The sum of the counts. */
  function Sum(cs: seq<Candidate>): nat
  {
    if |cs| == 0 then 0 else Sum(cs[..|cs| - 1]) + cs[|cs| - 1].0
  }

  /** Counts never increase along `cs`. */
  ghost predicate Descending(cs: seq<Candidate>)
  {
    forall a, b :: 0 <= a < b < |cs| ==> cs[a].0 >= cs[b].0
  }

  // ---------------------------------------------------------------------------
  // solution.sort(key=_by_key, reverse=True)
  // ---------------------------------------------------------------------------

  /** Puts `x` after every candidate whose count is at least its own. */
  function InsertByCount(x: Candidate, s: seq<Candidate>): (r: seq<Candidate>)
    ensures multiset(r) == multiset(s) + multiset{x}
  {
    if |s| == 0 then [x]
    else if s[0].0 >= x.0 then
      assert s == [s[0]] + s[1..];
      [s[0]] + InsertByCount(x, s[1..])
    else
      [x] + s
  }

  /** Inserting into a descending list keeps it descending. */
  lemma {:induction false} InsertKeepsOrder(x: Candidate, s: seq<Candidate>)
    requires Descending(s)
    ensures Descending(InsertByCount(x, s))
    decreases |s|
  {
    if |s| > 0 && s[0].0 >= x.0 {
      var rest := InsertByCount(x, s[1..]);
      InsertKeepsOrder(x, s[1..]);
      forall t | 0 <= t < |rest| ensures s[0].0 >= rest[t].0 {
        assert rest[t] in multiset(rest);
        if rest[t] != x {
          assert rest[t] in multiset(s[1..]);
        }
      }
    }
  }

  /** Python's list sort on the counts, largest first; each candidate joins after its equals. */
  function SortByCount(s: seq<Candidate>): (r: seq<Candidate>)
    ensures multiset(r) == multiset(s) && Descending(r)
  {
    if |s| == 0 then []
    else
      assert s == s[..|s| - 1] + [s[|s| - 1]];
      InsertKeepsOrder(s[|s| - 1], SortByCount(s[..|s| - 1]));
      InsertByCount(s[|s| - 1], SortByCount(s[..|s| - 1]))
  }

  /** `Sum` read from the front. */
  lemma {:induction false} SumFront(x: Candidate, s: seq<Candidate>)
    ensures Sum([x] + s) == x.0 + Sum(s)
    decreases |s|
  {
    if |s| == 0 {
      assert [x] + s == [x] && [x][..0] == [];
    } else {
      var s0 := s[..|s| - 1];
      SumFront(x, s0);
      assert ([x] + s)[..|s|] == [x] + s0;
    }
  }

  /** Inserting a candidate adds its count. */
  lemma {:induction false} InsertSum(x: Candidate, s: seq<Candidate>)
    ensures Sum(InsertByCount(x, s)) == Sum(s) + x.0
    decreases |s|
  {
    if |s| == 0 {
      assert [x][..0] == [];
    } else if s[0].0 >= x.0 {
      InsertSum(x, s[1..]);
      SumFront(s[0], InsertByCount(x, s[1..]));
      SumFront(s[0], s[1..]);
      assert [s[0]] + s[1..] == s;
    } else {
      SumFront(x, s);
    }
  }

  /** Sorting keeps the total count. */
  lemma {:induction false} SortSum(s: seq<Candidate>)
    ensures Sum(SortByCount(s)) == Sum(s)
    decreases |s|
  {
    if |s| > 0 {
      SortSum(s[..|s| - 1]);
      InsertSum(s[|s| - 1], SortByCount(s[..|s| - 1]));
    }
  }

  /** Without repeats, every value occurs at most once. */
  lemma {:induction false} AtMostOnce<T>(s: seq<T>, x: T)
    requires NoRepeats(s)
    ensures multiset(s)[x] <= 1
    decreases |s|
  {
    if |s| > 0 {
      var s0 := s[..|s| - 1];
      AtMostOnce(s0, x);
      assert s == s0 + [s[|s| - 1]];
      if s[|s| - 1] == x {
        assert x !in s0;
      }
    }
  }

  /** A value found at two places occurs at least twice. */
  lemma Twice<T>(s: seq<T>, a: nat, b: nat)
    requires a < b < |s| && s[a] == s[b]
    ensures multiset(s)[s[a]] >= 2
  {
    assert s == s[..b] + [s[b]] + s[b + 1..];
    assert s[..b][a] == s[a];
  }

  /** A permutation of a list without repeats has none. */
  lemma PermNoRepeats<T>(s: seq<T>, r: seq<T>)
    requires multiset(s) == multiset(r) && NoRepeats(s)
    ensures NoRepeats(r)
  {
    forall a, b | 0 <= a < b < |r| ensures r[a] != r[b] {
      if r[a] == r[b] {
        Twice(r, a, b);
        AtMostOnce(s, r[a]);
      }
    }
  }

  // ---------------------------------------------------------------------------
  // The prefix that reaches k
  // ---------------------------------------------------------------------------

  /**
   * `nodes` is what lines 46-54 return from the candidates `cs`: the nodes of the shortest
   * non-empty prefix whose counts reach `k`.
   */
  ghost predicate ShortestReaching(cs: seq<Candidate>, k: int, nodes: seq<seq<nat>>)
  {
    && 1 <= |nodes| <= |cs|
    && nodes == Nodes(cs[..|nodes|])
    && Sum(cs[..|nodes|]) >= k
    && forall j :: 1 <= j < |nodes| ==> Sum(cs[..j]) < k
  }

  /**
   * The outcome of lines 46-54 on the sorted candidates `cs`: ValueError exactly when there are
   * none, None exactly when all their counts together stay below `k`, and otherwise the nodes
   * of the shortest prefix that reaches `k`.
   */
  ghost predicate Selects(cs: seq<Candidate>, k: int, r: Result<Option<seq<seq<nat>>>, Error>)
  {
    && (r.Failure? <==> |cs| == 0)
    && (r.Failure? ==> r.error == ValueError)
    && (r.Success? ==> (r.value.None? <==> Sum(cs) < k))
    && (r.Success? && r.value.Some? ==> ShortestReaching(cs, k, r.value.value))
  }

  /**
   * Lines 46-54: add up the counts until they reach `k`, then unzip. On an empty list the
   * unpacking `_, solution = zip(*solution)` raises ValueError.
   */
  method ShortestPrefix(cs: seq<Candidate>, k: int) returns (r: Result<Option<seq<seq<nat>>>, Error>)
    ensures Selects(cs, k, r)
  {
    var total := 0;
    var i := 0;
    var j := 0;
    while j < |cs|
      invariant j <= |cs| && total == Sum(cs[..j])
      invariant j > 0 ==> i == j - 1
      invariant forall t :: 1 <= t <= j ==> Sum(cs[..t]) < k
    {
      assert cs[..j + 1][..j] == cs[..j];
      total := total + cs[j].0;
      i := j;
      if total >= k {
        break;
      }
      j := j + 1;
    }
    if |cs| == 0 {
      return Failure(ValueError);
    }
    var solution := Nodes(cs);
    if total >= k {
      assert cs[..i + 1] == cs[..j + 1];
      SumGrows(cs, j + 1, |cs|);
      assert cs[..|cs|] == cs;
      assert solution[..i + 1] == Nodes(cs[..i + 1]);
      return Success(Some(solution[..i + 1]));
    }
    assert cs[..j] == cs;
    return Success(None);
  }

  // ---------------------------------------------------------------------------
  // No fewer candidates reach more than the first ones
  // ---------------------------------------------------------------------------

  /** The counts of the candidates at the indices `ix`, added up. */
  function SumAt(cs: seq<Candidate>, ix: seq<nat>): nat
    requires forall j :: 0 <= j < |ix| ==> ix[j] < |cs|
  {
    if |ix| == 0 then 0 else SumAt(cs, ix[..|ix| - 1]) + cs[ix[|ix| - 1]].0
  }

  /** Taking out the index at `j` takes out its count. */
  lemma {:induction false} SumAtRemove(cs: seq<Candidate>, ix: seq<nat>, j: nat)
    requires forall t :: 0 <= t < |ix| ==> ix[t] < |cs|
    requires j < |ix|
    ensures SumAt(cs, ix) == SumAt(cs, ix[..j] + ix[j + 1..]) + cs[ix[j]].0
    decreases |ix|
  {
    var last := |ix| - 1;
    if j == last {
      assert ix[..j] + ix[j + 1..] == ix[..last];
    } else {
      var ix0 := ix[..last];
      SumAtRemove(cs, ix0, j);
      assert ix[..j] + ix[j + 1..] == (ix0[..j] + ix0[j + 1..]) + [ix[last]];
      assert (ix[..j] + ix[j + 1..])[..|ix| - 2] == ix0[..j] + ix0[j + 1..];
    }
  }

  /** The position of a largest index. */
  function ArgMax(ix: seq<nat>): (m: nat)
    requires |ix| > 0
    ensures m < |ix| && forall t :: 0 <= t < |ix| ==> ix[t] <= ix[m]
  {
    if |ix| == 1 then 0
    else
      var m := ArgMax(ix[..|ix| - 1]);
      assert forall t :: 0 <= t < |ix| - 1 ==> ix[..|ix| - 1][t] == ix[t];
      if ix[|ix| - 1] > ix[m] then |ix| - 1 else m
  }

  /** `n` distinct naturals cannot all lie below `n - 1`. */
  lemma DistinctReach(ix: seq<nat>, m: nat)
    requires NoRepeats(ix) && |ix| > 0 && forall t :: 0 <= t < |ix| ==> ix[t] <= m
    ensures |ix| <= m + 1
  {
    var values := set t | 0 <= t < |ix| :: ix[t];
    DistinctSize(ix);
    var span := Span(0, m + 1);
    assert values <= span;
    assert span == values + (span - values);
    assert values * (span - values) == {};
  }

  /** The distinct entries of a sequence are as many as its length. */
  lemma {:induction false} DistinctSize(ix: seq<nat>)
    requires NoRepeats(ix)
    ensures |set t | 0 <= t < |ix| :: ix[t]| == |ix|
    decreases |ix|
  {
    if |ix| > 0 {
      var ix0 := ix[..|ix| - 1];
      DistinctSize(ix0);
      var s0 := set t | 0 <= t < |ix0| :: ix0[t];
      assert (set t | 0 <= t < |ix| :: ix[t]) == s0 + {ix[|ix| - 1]};
      assert ix[|ix| - 1] !in s0;
    }
  }

  /**
   * With counts in descending order, the counts of any `n` distinct candidates add up to at
   * most the counts of the first `n`.
   */
  lemma {:induction false} TopSum(cs: seq<Candidate>, ix: seq<nat>)
    requires Descending(cs) && NoRepeats(ix)
    requires forall j :: 0 <= j < |ix| ==> ix[j] < |cs|
    ensures |ix| <= |cs| && SumAt(cs, ix) <= Sum(cs[..|ix|])
    decreases |ix|
  {
    if |ix| == 0 {
      assert cs[..0] == [];
    } else {
      var n := |ix|;
      var j := ArgMax(ix);
      var big := ix[j];
      DistinctReach(ix, big);
      DistinctReach(ix, |cs| - 1);
      var rest := ix[..j] + ix[j + 1..];
      DropIndex(ix, j, |cs|, rest);
      SumAtRemove(cs, ix, j);
      TopSum(cs, rest);
      assert cs[..n][..n - 1] == cs[..n - 1];
      assert cs[big].0 <= cs[n - 1].0;
    }
  }

  /** Distinct indices below `bound` stay so with one of them taken out. */
  lemma DropIndex(ix: seq<nat>, j: nat, bound: nat, rest: seq<nat>)
    requires NoRepeats(ix) && j < |ix| && rest == ix[..j] + ix[j + 1..]
    requires forall t :: 0 <= t < |ix| ==> ix[t] < bound
    ensures |rest| == |ix| - 1 && NoRepeats(rest)
    ensures forall t :: 0 <= t < |rest| ==> rest[t] < bound
  {
    assert forall t :: 0 <= t < |rest| ==> rest[t] == (if t < j then ix[t] else ix[t + 1]);
  }

  /** Prefix sums grow with the prefix. */
  lemma {:induction false} SumGrows(cs: seq<Candidate>, a: nat, b: nat)
    requires a <= b <= |cs|
    ensures Sum(cs[..a]) <= Sum(cs[..b])
    decreases b - a
  {
    if a < b {
      SumGrows(cs, a, b - 1);
      assert cs[..b][..b - 1] == cs[..b - 1];
    }
  }
}
