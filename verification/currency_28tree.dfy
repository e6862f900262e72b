/**
 * The (2,8)-tree of currencies (project1/abtree/currency_28tree.py): an (a,b)-tree map with
 * a = 2 and b = 8 whose keys are currency codes and whose values are the currencies carrying
 * those codes.
 *
 * The tree model orders integer keys; a code enters it through `CodeRank`, its rank among the
 * three-letter codes, which orders codes exactly as Python compares the strings.
 */
module CurrencyTree {
  import opened Wrappers
  import opened Exceptions
  import opened ABTreeNodes
  import opened ABTreeSearch
  import opened ABTreeMapLayer
  import opened Currencies

  // ---------------------------------------------------------------------------
  // Codes as keys
  // ---------------------------------------------------------------------------

  function Letter(c: char): (d: int)
    requires IsCapital(c)
    ensures 0 <= d < 26
  {
    c as int - 'A' as int
  }

  /** The code read as a three-digit number in base 26. */
  function CodeRank(c: CurrencyCode): int
  {
    Letter(c[0]) * 676 + Letter(c[1]) * 26 + Letter(c[2])
  }

  /** Python's `<` on two three-letter strings: lexicographic order. */
  predicate CodeLess(x: CurrencyCode, y: CurrencyCode)
  {
    x[0] < y[0] || (x[0] == y[0] && (x[1] < y[1] || (x[1] == y[1] && x[2] < y[2])))
  }

  /** Ranks compare as the codes do, and distinct codes have distinct ranks. */
  lemma CodeRankOrder(x: CurrencyCode, y: CurrencyCode)
    ensures CodeRank(x) < CodeRank(y) <==> CodeLess(x, y)
    ensures CodeRank(x) == CodeRank(y) <==> x == y
  {
    assert ValidateIso4217(x) && ValidateIso4217(y);
    if x[0] == y[0] && x[1] == y[1] && x[2] == y[2] {
      assert x == y;
    }
  }

  /** Every item is filed under the rank of its currency's code. */
  ghost predicate KeysAreCodes(s: seq<Item<Currency>>)
  {
    forall t :: 0 <= t < |s| ==> s[t].key == CodeRank(s[t].value.code)
  }

  /** Some stored currency carries `code`. */
  ghost predicate HasCode(s: seq<Item<Currency>>, code: string)
  {
    exists t :: 0 <= t < |s| && s[t].value.code == code
  }

  /** Under `KeysAreCodes`, looking a code up is looking its rank up. */
  lemma CodeKeys(s: seq<Item<Currency>>, code: string)
    requires KeysAreCodes(s)
    ensures HasCode(s, code) <==> ValidateIso4217(code) && HasKey(s, CodeRank(code))
  {
    if ValidateIso4217(code) && HasKey(s, CodeRank(code)) {
      var t :| 0 <= t < |s| && s[t].key == CodeRank(code);
      CodeRankOrder(code, s[t].value.code);
    }
  }

  /** Filing a currency under its own code keeps every item filed under its code. */
  lemma UpsertKeepsCodes(s: seq<Item<Currency>>, c: Currency)
    requires SortedKeys(s) && KeysAreCodes(s)
    ensures KeysAreCodes(Upsert(s, CodeRank(c.code), c))
  {
    var r := Upsert(s, CodeRank(c.code), c);
    UpsertSpec(s, CodeRank(c.code), c);
    forall t | 0 <= t < |r| ensures r[t].key == CodeRank(r[t].value.code) {
      assert Maps(r, r[t].key, r[t].value);
      if r[t].key != CodeRank(c.code) {
        var u :| 0 <= u < |s| && s[u] == Item(r[t].key, r[t].value);
      }
    }
  }

  lemma RemoveKeepsCodes(s: seq<Item<Currency>>, k: int)
    requires SortedKeys(s) && KeysAreCodes(s)
    ensures KeysAreCodes(Remove(s, k))
  {
    var r := Remove(s, k);
    RemoveSpec(s, k);
    forall t | 0 <= t < |r| ensures r[t].key == CodeRank(r[t].value.code) {
      assert Maps(r, r[t].key, r[t].value);
      var u :| 0 <= u < |s| && s[u] == Item(r[t].key, r[t].value);
    }
  }

  // ---------------------------------------------------------------------------
  // The tree
  // ---------------------------------------------------------------------------

  class Currency28Tree {
    const tree: ABTreeMap<Currency>

    ghost predicate Valid()
      reads this, tree
    {
      tree.Valid() && tree.a == 2 && tree.b == 8 && KeysAreCodes(tree.Items())
    }

    /** `Currency28Tree()`: an empty (2,8)-tree. */
    constructor ()
      ensures Valid() && fresh(tree) && tree.Items() == []
    {
      tree := new ABTreeMap.Empty(2, 8);
    }

    /** `__setitem__(key, value)`: a ValueError unless `key` is the code of `value`; otherwise the tree's assignment. */
    method SetItem(key: string, value: Currency) returns (r: Result<(), Error>)
      requires Valid()
      modifies tree
      ensures Valid()
      ensures r.Failure? <==> key != value.code
      ensures r.Failure? ==> r.error == ValueError && tree.Items() == old(tree.Items())
      ensures r.Success? ==> tree.Items() == Upsert(old(tree.Items()), CodeRank(value.code), value)
    {
      if key != value.code {
        return Failure(ValueError);
      }
      UpsertKeepsCodes(tree.Items(), value);
      tree.SetItem(CodeRank(value.code), value);
      return Success(());
    }

    /** `insert(currency)`: files the currency under its own code, replacing any currency with that code. */
    method Insert(c: Currency)
      requires Valid()
      modifies tree
      ensures Valid()
      ensures tree.Items() == Upsert(old(tree.Items()), CodeRank(c.code), c)
    {
      var _ := SetItem(c.code, c);
    }

    /** `delete(code)`: the tree raises KeyError when no currency has that code. */
    method Delete(code: string) returns (r: Result<(), Error>)
      requires Valid()
      modifies tree
      ensures Valid()
      ensures r.Failure? <==> !HasCode(old(tree.Items()), code)
      ensures r.Failure? ==> r.error == KeyError && tree.Items() == old(tree.Items())
      ensures r.Success? ==> tree.Items() == Remove(old(tree.Items()), CodeRank(code))
    {
      CodeKeys(tree.Items(), code);
      if !ValidateIso4217(code) {
        return Failure(KeyError);
      }
      RemoveKeepsCodes(tree.Items(), CodeRank(code));
      r := tree.DelItem(CodeRank(code));
    }

    /** `search(code)`: the currency with that code, or KeyError. */
    method Search(code: string) returns (r: Result<Currency, Error>)
      requires Valid()
      ensures r.Failure? <==> !HasCode(tree.Items(), code)
      ensures r.Failure? ==> r.error == KeyError
      ensures r.Success? ==> r.value.code == code && Maps(tree.Items(), CodeRank(code), r.value)
    {
      CodeKeys(tree.Items(), code);
      if !ValidateIso4217(code) {
        return Failure(KeyError);
      }
      r := tree.Get(CodeRank(code));
      if r.Success? {
        var t :| 0 <= t < |tree.Items()| && tree.Items()[t] == Item(CodeRank(code), r.value);
        CodeRankOrder(code, r.value.code);
      }
    }
  }
}
