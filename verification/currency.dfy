/**
 * A currency (project1/currency.py): an ISO 4217 code, the set of its denominations kept in
 * key order by a balanced search tree, and the exchange rates towards other currencies kept in
 * a hash map.
 *
 * The tree is seen through its in-order key sequence (`denominations`, strictly increasing) and
 * the hash map through the `map` it represents (`changes`); the hash map itself is modelled in
 * double_hashing.dfy.
 */
module Currencies {
  import opened Wrappers
  import opened Exceptions
  import opened Sequences

  // ---------------------------------------------------------------------------
  // ISO 4217 codes
  // ---------------------------------------------------------------------------

  predicate IsCapital(c: char)
  {
    'A' <= c <= 'Z'
  }

  /** Exactly three capital letters: the shape `_validate_iso4217` is meant to accept. */
  function ValidateIso4217(s: string): (ok: bool)
    ensures ok <==> |s| == 3 && forall i :: 0 <= i < |s| ==> IsCapital(s[i])
  {
    |s| == 3 && IsCapital(s[0]) && IsCapital(s[1]) && IsCapital(s[2])
  }

  type CurrencyCode = s: string | ValidateIso4217(s) witness "EUR"

  /**
   * Python's `$` without MULTILINE holds at the end of the string and also just before a
   * newline that ends it.
   */
  predicate DollarHolds(s: string, p: nat)
  {
    p == |s| || (p + 1 == |s| && s[p] == '\n')
  }

  /** `re.compile("^[A-Z]{3}$").match(s) is not None`, as written. */
  function ValidateIso4217AsWritten(s: string): (ok: bool)
    ensures ok <==> ValidateIso4217(s) || (|s| == 4 && ValidateIso4217(s[..3]) && s[3] == '\n')
  {
    |s| >= 3 && IsCapital(s[0]) && IsCapital(s[1]) && IsCapital(s[2]) && DollarHolds(s, 3)
  }

  /** The pattern as written lets a code followed by a newline through. */
  lemma TrailingNewlineAccepted()
    ensures ValidateIso4217AsWritten("EUR\n") && !ValidateIso4217("EUR\n")
  {
    assert "EUR\n"[..3] == "EUR";
  }

  // ---------------------------------------------------------------------------
  // The ordered set of denominations
  // ---------------------------------------------------------------------------

  /** Every denomination is worth at least one cent (the change algorithms only terminate then). */
  ghost predicate Positive(s: seq<int>)
  {
    forall j :: 0 <= j < |s| ==> s[j] > 0
  }

  ghost predicate Increasing(s: seq<int>)
  {
    forall i, j :: 0 <= i < j < |s| ==> s[i] < s[j]
  }

  /** Inserting a value not yet present at its place in key order. */
  function Insort(s: seq<int>, x: int): (r: seq<int>)
  {
    if s == [] || x < s[0] then [x] + s else [s[0]] + Insort(s[1..], x)
  }

  lemma {:induction false} InsortSpec(s: seq<int>, x: int)
    requires Increasing(s) && x !in s
    ensures Increasing(Insort(s, x)) && |Insort(s, x)| == |s| + 1
    ensures forall y :: y in Insort(s, x) <==> y == x || y in s
  {
    if s != [] && x >= s[0] {
      InsortSpec(s[1..], x);
      var r := Insort(s, x);
      assert r == [s[0]] + Insort(s[1..], x);
      forall i, j | 0 <= i < j < |r| ensures r[i] < r[j] {
        if i == 0 {
          assert r[j] in Insort(s[1..], x);
          if r[j] != x {
            var k :| 1 <= k < |s| && s[k] == r[j];
          }
        }
      }
    }
  }

  /** Removing a value from the ordered set. */
  function Discard(s: seq<int>, x: int): (r: seq<int>)
  {
    if s == [] then [] else if s[0] == x then s[1..] else [s[0]] + Discard(s[1..], x)
  }

  lemma {:induction false} DiscardSpec(s: seq<int>, x: int)
    requires Increasing(s) && x in s
    ensures Increasing(Discard(s, x)) && |Discard(s, x)| + 1 == |s|
    ensures forall y :: y in Discard(s, x) <==> y != x && y in s
  {
    if s[0] != x {
      DiscardSpec(s[1..], x);
      var r := Discard(s, x);
      forall i, j | 0 <= i < j < |r| ensures r[i] < r[j] {
        if i == 0 {
          assert r[j] in Discard(s[1..], x);
          var k :| 1 <= k < |s| && s[k] == r[j];
        }
      }
    } else {
      forall y ensures y in s[1..] <==> y != x && y in s {
        if y in s[1..] {
          var k :| 1 <= k < |s| && s[k] == y;
        }
      }
    }
  }

  /** Number of elements of `s` below `v`: where `v` is or would be in key order. */
  function LowerBound(s: seq<int>, v: int): (i: nat)
    requires Increasing(s)
    ensures i <= |s|
    ensures forall j :: 0 <= j < i ==> s[j] < v
    ensures forall j :: i <= j < |s| ==> v <= s[j]
  {
    if s == [] || v <= s[0] then 0 else 1 + LowerBound(s[1..], v)
  }

  /** From a search position next to `v`: the least element not below `v`, or ValueError when every element is below it. */
  function AtLeastFrom(s: seq<int>, v: int, p: nat): (r: Result<int, Error>)
    requires Increasing(s) && p < |s|
    requires s[p] < v ==> p + 1 == |s| || v < s[p + 1]
    requires s[p] > v ==> p == 0 || s[p - 1] < v
    ensures r.Failure? <==> forall j :: 0 <= j < |s| ==> s[j] < v
    ensures r.Failure? ==> r.error == ValueError
    ensures r.Success? ==> r.value in s && v <= r.value && forall j :: 0 <= j < |s| && v <= s[j] ==> r.value <= s[j]
  {
    if s[p] < v then
      if p + 1 < |s| then Success(s[p + 1]) else Failure(ValueError)
    else Success(s[p])
  }

  /** From a search position next to `v`: the greatest element not above `v`, or ValueError when every element is above it. */
  function AtMostFrom(s: seq<int>, v: int, p: nat): (r: Result<int, Error>)
    requires Increasing(s) && p < |s|
    requires s[p] < v ==> p + 1 == |s| || v < s[p + 1]
    requires s[p] > v ==> p == 0 || s[p - 1] < v
    ensures r.Failure? <==> forall j :: 0 <= j < |s| ==> v < s[j]
    ensures r.Failure? ==> r.error == ValueError
    ensures r.Success? ==> r.value in s && r.value <= v && forall j :: 0 <= j < |s| && s[j] <= v ==> s[j] <= r.value
  {
    if s[p] > v then
      if p > 0 then Success(s[p - 1]) else Failure(ValueError)
    else Success(s[p])
  }

  /**
   * The tree's `find_position(v)`: `None` on an empty tree, the position of `v` when present,
   * and otherwise the last position the descent visited, which is the in-order predecessor or
   * successor of `v` depending on the shape of the tree. `lean` stands for that shape: when both
   * neighbours exist, `lean` picks the predecessor.
   */
  function FindPosition(s: seq<int>, v: int, lean: bool): (r: Option<nat>)
    requires Increasing(s)
    ensures r.None? <==> s == []
    ensures r.Some? ==> r.value < |s|
    ensures r.Some? && v in s ==> s[r.value] == v
    ensures r.Some? && s[r.value] < v ==> r.value + 1 == |s| || v < s[r.value + 1]
    ensures r.Some? && s[r.value] > v ==> r.value == 0 || s[r.value - 1] < v
  {
    var i := LowerBound(s, v);
    if s == [] then None
    else if i < |s| && s[i] == v then Some(i)
    else if i == 0 then Some(0)
    else if i == |s| then Some(|s| - 1)
    else if lean then Some(i - 1)
    else Some(i)
  }

  // ---------------------------------------------------------------------------
  // The currency
  // ---------------------------------------------------------------------------

  class Currency {
    const code: CurrencyCode
    var denominations: seq<int>
    var changes: map<string, real>

    ghost predicate Valid()
      reads this
    {
      Increasing(denominations) && forall k :: k in changes ==> |k| > 0
    }

    constructor (c: CurrencyCode)
      ensures code == c && denominations == [] && changes == map[] && Valid()
    {
      code := c;
      denominations := [];
      changes := map[];
    }

    /**
     * `Currency(c)`: a TypeError unless `c` is three capital letters. This is the corrected
     * `_validate_iso4217`: the pattern as written also lets `"EUR\n"` through.
     */
    static method New(c: string) returns (r: Result<Currency, Error>)
      ensures r.Failure? <==> !ValidateIso4217(c)
      ensures r.Failure? ==> r.error == TypeError
      ensures r.Success? ==> fresh(r.value) && r.value.Valid() && r.value.code == c
      ensures r.Success? ==> r.value.denominations == [] && r.value.changes == map[]
    {
      if !ValidateIso4217(c) {
        return Failure(TypeError);
      }
      var cur := new Currency(c);
      return Success(cur);
    }

    /** `add_denomination`: a ValueError when `value` is already a denomination. */
    method AddDenomination(value: int) returns (r: Result<(), Error>)
      requires Valid()
      modifies this
      ensures Valid() && changes == old(changes)
      ensures r.Failure? <==> value in old(denominations)
      ensures r.Failure? ==> r.error == ValueError && denominations == old(denominations)
      ensures r.Success? ==> denominations == Insort(old(denominations), value)
    {
      if value in denominations {
        return Failure(ValueError);
      }
      InsortSpec(denominations, value);
      denominations := Insort(denominations, value);
      return Success(());
    }

    /** `del_denomination`: the tree raises KeyError when `value` is not a denomination. */
    method DelDenomination(value: int) returns (r: Result<(), Error>)
      requires Valid()
      modifies this
      ensures Valid() && changes == old(changes)
      ensures r.Failure? <==> value !in old(denominations)
      ensures r.Failure? ==> r.error == KeyError && denominations == old(denominations)
      ensures r.Success? ==> denominations == Discard(old(denominations), value)
    {
      if value !in denominations {
        return Failure(KeyError);
      }
      DiscardSpec(denominations, value);
      denominations := Discard(denominations, value);
      return Success(());
    }

    /**
     * `min_denomination(value)`: without a value the least denomination, with one the least
     * denomination not below it. With a value, an empty tree makes the source call `key()` on
     * None (AttributeError); whichever neighbour the search lands on, the answer is the same.
     */
    function MinDenomination(value: Option<int>, lean: bool): (r: Result<int, Error>)
      requires Valid()
      reads this
      ensures value.None? ==> (r.Failure? <==> denominations == [])
      ensures value.Some? ==> (r.Failure? <==> forall j :: 0 <= j < |denominations| ==> denominations[j] < value.value)
      ensures r.Failure? ==> r.error == (if value.Some? && denominations == [] then AttributeError else ValueError)
      ensures r.Success? ==> r.value in denominations
      ensures r.Success? && value.None? ==> forall j :: 0 <= j < |denominations| ==> r.value <= denominations[j]
      ensures r.Success? && value.Some? ==>
                value.value <= r.value && forall j :: 0 <= j < |denominations| && value.value <= denominations[j] ==> r.value <= denominations[j]
    {
      var s := denominations;
      if value.None? then
        if s == [] then Failure(ValueError) else Success(s[0])
      else
        var p := FindPosition(s, value.value, lean);
        if p.None? then Failure(AttributeError) else AtLeastFrom(s, value.value, p.value)
    }

    /** `max_denomination(value)`: the mirror image of `MinDenomination`. */
    function MaxDenomination(value: Option<int>, lean: bool): (r: Result<int, Error>)
      requires Valid()
      reads this
      ensures value.None? ==> (r.Failure? <==> denominations == [])
      ensures value.Some? ==> (r.Failure? <==> forall j :: 0 <= j < |denominations| ==> value.value < denominations[j])
      ensures r.Failure? ==> r.error == (if value.Some? && denominations == [] then AttributeError else ValueError)
      ensures r.Success? ==> r.value in denominations
      ensures r.Success? && value.None? ==> forall j :: 0 <= j < |denominations| ==> denominations[j] <= r.value
      ensures r.Success? && value.Some? ==>
                r.value <= value.value && forall j :: 0 <= j < |denominations| && denominations[j] <= value.value ==> denominations[j] <= r.value
    {
      var s := denominations;
      if value.None? then
        if s == [] then Failure(ValueError) else Success(s[|s| - 1])
      else
        var p := FindPosition(s, value.value, lean);
        if p.None? then Failure(AttributeError) else AtMostFrom(s, value.value, p.value)
    }

    /** `next_denomination(value)`: a ValueError unless `value` is a denomination; then its successor, if any. */
    function NextDenomination(value: int, lean: bool): (r: Result<Option<int>, Error>)
      requires Valid()
      reads this
      ensures r.Failure? <==> value !in denominations
      ensures r.Failure? ==> r.error == ValueError
      ensures r.Success? ==> (r.value.None? <==> forall j :: 0 <= j < |denominations| ==> denominations[j] <= value)
      ensures r.Success? && r.value.Some? ==>
                r.value.value in denominations && value < r.value.value &&
                forall j :: 0 <= j < |denominations| && value < denominations[j] ==> r.value.value <= denominations[j]
    {
      var s := denominations;
      var p := FindPosition(s, value, lean);
      if p.None? || s[p.value] != value then Failure(ValueError)
      else if p.value + 1 < |s| then Success(Some(s[p.value + 1]))
      else Success(None)
    }

    /** `prev_denomination(value)`: a ValueError unless `value` is a denomination; then its predecessor, if any. */
    function PrevDenomination(value: int, lean: bool): (r: Result<Option<int>, Error>)
      requires Valid()
      reads this
      ensures r.Failure? <==> value !in denominations
      ensures r.Failure? ==> r.error == ValueError
      ensures r.Success? ==> (r.value.None? <==> forall j :: 0 <= j < |denominations| ==> value <= denominations[j])
      ensures r.Success? && r.value.Some? ==>
                r.value.value in denominations && r.value.value < value &&
                forall j :: 0 <= j < |denominations| && denominations[j] < value ==> denominations[j] <= r.value.value
    {
      var s := denominations;
      var p := FindPosition(s, value, lean);
      if p.None? || s[p.value] != value then Failure(ValueError)
      else if p.value > 0 then Success(Some(s[p.value - 1]))
      else Success(None)
    }

    function HasDenominations(): (r: bool)
      reads this
      ensures r <==> |denominations| > 0
    {
      denominations != []
    }

    function NumDenominations(): (r: nat)
      reads this
      ensures r == |denominations|
    {
      |denominations|
    }

    method ClearDenominations()
      modifies this
      ensures denominations == [] && changes == old(changes)
    {
      denominations := [];
    }

    /** `iter_denominations(reverse)`: every denomination once, ascending, or descending when `reverse`. */
    function IterDenominations(reverse: bool): (r: seq<int>)
      requires Valid()
      reads this
      ensures |r| == |denominations|
      ensures multiset(r) == multiset(denominations)
      ensures forall i, j :: 0 <= i < j < |r| ==> if reverse then r[i] > r[j] else r[i] < r[j]
    {
      if reverse then ReversedMultiset(denominations); Reversed(denominations) else denominations
    }

    /** `add_change`: a KeyError when a rate towards `other` is already recorded. */
    method AddChange(other: string, rate: real) returns (r: Result<(), Error>)
      requires Valid()
      modifies this
      ensures Valid() && denominations == old(denominations)
      ensures r.Failure? <==> |other| == 0 || other in old(changes)
      ensures r.Failure? ==> r.error == (if |other| == 0 then IndexError else KeyError) && changes == old(changes)
      ensures r.Success? ==> changes == old(changes)[other := rate]
    {
      if |other| == 0 {
        return Failure(IndexError);
      }
      if other in changes {
        return Failure(KeyError);
      }
      changes := changes[other := rate];
      return Success(());
    }

    /** `remove_change`: a KeyError when no rate towards `other` is recorded. */
    method RemoveChange(other: string) returns (r: Result<(), Error>)
      requires Valid()
      modifies this
      ensures Valid() && denominations == old(denominations)
      ensures r.Failure? <==> |other| == 0 || other !in old(changes)
      ensures r.Failure? ==> r.error == (if |other| == 0 then IndexError else KeyError) && changes == old(changes)
      ensures r.Success? ==> changes == old(changes) - {other}
    {
      if |other| == 0 {
        return Failure(IndexError);
      }
      if other !in changes {
        return Failure(KeyError);
      }
      changes := changes - {other};
      return Success(());
    }

    /** `update_change`: records the rate whether or not one was there. */
    method UpdateChange(other: string, rate: real) returns (r: Result<(), Error>)
      requires Valid()
      modifies this
      ensures Valid() && denominations == old(denominations)
      ensures r.Failure? <==> |other| == 0
      ensures r.Failure? ==> r.error == IndexError && changes == old(changes)
      ensures r.Success? ==> changes == old(changes)[other := rate]
    {
      if |other| == 0 {
        return Failure(IndexError);
      }
      changes := changes[other := rate];
      return Success(());
    }

    /** `get_change`: a KeyError when no rate towards `other` is recorded. */
    function GetChange(other: string): (r: Result<real, Error>)
      reads this
      ensures r.Failure? <==> |other| == 0 || other !in changes
      ensures r.Failure? ==> r.error == (if |other| == 0 then IndexError else KeyError)
      ensures r.Success? ==> other in changes && r.value == changes[other]
    {
      if |other| == 0 then Failure(IndexError)
      else if other !in changes then Failure(KeyError)
      else Success(changes[other])
    }

    /**
     * `deepcopy`: a new currency with the same code, built by adding the denominations in
     * ascending order and then every recorded rate.
     */
    method DeepCopy() returns (c: Currency)
      requires Valid()
      ensures fresh(c) && c.Valid()
      ensures c.code == code && c.denominations == denominations && c.changes == changes
    {
      c := new Currency(code);
      var i := 0;
      while i < |denominations|
        invariant 0 <= i <= |denominations|
        invariant c.Valid() && c.denominations == denominations[..i] && c.changes == map[]
      {
        InsortAppends(denominations[..i], denominations[i]);
        assert denominations[..i + 1] == denominations[..i] + [denominations[i]];
        var _ := c.AddDenomination(denominations[i]);
        i := i + 1;
      }
      assert denominations[..i] == denominations;
      var todo := changes.Keys;
      while todo != {}
        invariant todo <= changes.Keys
        invariant c.Valid() && c.denominations == denominations
        invariant c.changes.Keys == changes.Keys - todo
        invariant forall k :: k in c.changes ==> c.changes[k] == changes[k]
        decreases todo
      {
        var k :| k in todo;
        var _ := c.AddChange(k, changes[k]);
        todo := todo - {k};
      }
    }
  }

  /** Adding a value above every present one appends it. */
  lemma {:induction false} InsortAppends(s: seq<int>, x: int)
    requires forall i :: 0 <= i < |s| ==> s[i] < x
    ensures Insort(s, x) == s + [x]
  {
    if s != [] {
      InsortAppends(s[1..], x);
      assert [s[0]] + (s[1..] + [x]) == s + [x];
    }
  }
}
