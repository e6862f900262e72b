/**
 * `DoubleHashingHashMap` (project1/double_hashing_hash_map.py): an open-addressing hash map
 * whose slot array is probed with a second hash as the step, that counts the probe steps of
 * insertions that meet another key before any available slot, and that grows or shrinks to a
 * prime capacity to keep its load factor between about 0.2 and 0.5.
 *
 * The MAD parameters `scale` and `shift`, drawn at random by the base class, are constructor
 * parameters here. The represented map is `Mapping()`, the map the occupied slots denote.
 */
module DoubleHashing {
  import opened Wrappers
  import opened Exceptions
  import opened Primes
  import opened ProbeSlots

  /** Python's `round(x / d)` for a non-negative ratio: nearest integer, ties to even. */
  function RoundHalfEven(x: nat, d: nat): (r: nat)
    requires d > 0
    ensures 2 * x - d <= 2 * r * d <= 2 * x + d
    ensures 2 * r * d == 2 * x - d || 2 * r * d == 2 * x + d ==> r % 2 == 0
  {
    var q, rem := x / d, x % d;
    QuotientTimesTwo(x, d);
    if 2 * rem < d then q
    else if 2 * rem > d then q + 1
    else if q % 2 == 0 then q
    else q + 1
  }

  lemma QuotientTimesTwo(x: nat, d: nat)
    requires d > 0
    ensures 2 * (x / d) * d == 2 * x - 2 * (x % d)
    ensures 2 * (x / d + 1) * d == 2 * x - 2 * (x % d) + 2 * d
  {
    assert x == (x / d) * d + x % d;
  }

  /** `round(cap * 0.49, 0)`: the size above which the table grows. */
  function GrowThreshold(cap: nat): nat
  {
    RoundHalfEven(49 * cap, 100)
  }

  /** `round(cap * 0.21, 0)`: the size below which the table shrinks. */
  function ShrinkThreshold(cap: nat): nat
  {
    RoundHalfEven(21 * cap, 100)
  }

  /** The capacity a deletion shrinks to: `nextprime(cap // 2)`, but never below 17. */
  function ShrunkCapacity(cap: nat): nat
  {
    if NextPrime(cap / 2) < 17 then 17 else NextPrime(cap / 2)
  }

  lemma SmallPrimes()
    ensures IsPrime(5) && IsPrime(17)
  {
    forall d | 2 <= d < 17 ensures 17 % d != 0 {
      assert d == 2 || d == 3 || d == 4 || d == 5 || d == 6 || d == 7 || d == 8 || d == 9 || d == 10
        || d == 11 || d == 12 || d == 13 || d == 14 || d == 15 || d == 16;
    }
    forall d | 2 <= d < 5 ensures 5 % d != 0 {
      assert d == 2 || d == 3 || d == 4;
    }
  }

  /** The grown capacity `prevprime(2 * cap)` is a prime of at least 5. */
  lemma GrownCapacity(cap: nat)
    requires cap >= 4
    ensures IsPrime(PrevPrime(2 * cap)) && PrevPrime(2 * cap) >= 5
  {
    SmallPrimes();
  }

  /** The shrunk capacity is a prime of at least 17 above every size that triggers shrinking. */
  lemma ShrinkFits(cap: nat, size: nat)
    requires size < ShrinkThreshold(cap)
    ensures IsPrime(ShrunkCapacity(cap)) && ShrunkCapacity(cap) >= 17 && size < ShrunkCapacity(cap)
  {
    SmallPrimes();
    assert 100 * size < 21 * cap;
  }

  function Min(x: int, y: int): int
  {
    if x < y then x else y
  }

  /** A probe `_find_slot` steps past: a slot not `None` and not holding `k`. */
  predicate Passed<V>(x: Slot<V>, k: string)
  {
    !x.Empty? && !(x.Full? && x.key == k)
  }

  /**
   * What the probe loop has seen when it stops after `T` passed probes: either it ran out of
   * probes, or probe `T` is empty or holds `k`. A found `k` is in the slot of probe `T`; on a miss
   * `slot` is the first available slot seen, which is the end of the leading run of other keys if
   * the loop got that far.
   */
  ghost predicate Scanned<V>(s: seq<Slot<V>>, j: nat, step: nat, k: string, T: nat, found: bool, slot: Option<nat>)
    requires |s| > 0
  {
    var lead := Lead(s, j, step, k, 0);
    && T <= |s|
    && (forall u :: 0 <= u < T ==> Passed(s[Probe(j, step, u, |s|)], k))
    && (T < |s| ==> s[Probe(j, step, T, |s|)].Empty? || (s[Probe(j, step, T, |s|)].Full? && s[Probe(j, step, T, |s|)].key == k))
    && (found <==> T < |s| && s[Probe(j, step, T, |s|)].Full?)
    && (found ==> slot == Some(Probe(j, step, T, |s|)))
    && (!found ==> slot == if lead < (if T < |s| then T + 1 else T) then Some(Probe(j, step, lead, |s|)) else None)
  }

  /**
   * `_find_slot` stops after stepping past `T` probes, either because all `|s|` were passed or
   * because probe `T` is empty or holds `k`. Then `k` was found exactly when it is stored, the
   * slot returned on a miss is the end of the leading run of other keys, and that run is what
   * was counted.
   */
  lemma FindSlotOutcome<V>(s: seq<Slot<V>>, scale: int, shift: int, prime: int, k: string, T: nat,
                           found: bool, slot: Option<nat>)
    requires |s| >= 4 && 0 <= scale && 0 <= shift && 0 < prime
    requires Scanned(s, Home(k, scale, shift, prime, |s|), Step(k, |s|), k, T, found, slot)
    ensures var j, step := Home(k, scale, shift, prime, |s|), Step(k, |s|);
      var lead := Lead(s, j, step, k, 0);
      && (Chained(s, scale, shift, prime) ==> (found <==> k in SlotsMap(s)))
      && (!found ==> (slot.None? <==> lead == |s|))
      && (!found && slot.Some? ==> slot.value == Probe(j, step, lead, |s|))
      && Min(T, lead) == lead
  {
    var j, step := Home(k, scale, shift, prime, |s|), Step(k, |s|);
    if T < |s| {
      LeadAt(s, j, step, k, T);
    }
    if Chained(s, scale, shift, prime) {
      if !found {
        MissMeansAbsent(s, scale, shift, prime, k, T);
      }
      KeyMapped(s, k);
    }
  }

  lemma PassedExtend<V>(s: seq<Slot<V>>, j: nat, step: nat, k: string, c: nat)
    requires c < |s|
    requires forall u :: 0 <= u < c ==> Passed(s[Probe(j, step, u, |s|)], k)
    requires Passed(s[Probe(j, step, c, |s|)], k)
    ensures forall u :: 0 <= u < c + 1 ==> Passed(s[Probe(j, step, u, |s|)], k)
  {
  }

  lemma ProbeSucc(j: nat, step: nat, t: nat, m: nat)
    requires m > 0
    ensures Probe(j, step, t + 1, m) == (Probe(j, step, t, m) + step) % m
  {
  }

  /** Where the probe `c` stands relative to the leading run of other keys. */
  lemma LeadAt<V>(s: seq<Slot<V>>, j: nat, step: nat, k: string, c: nat)
    requires c < |s|
    ensures var x := s[Probe(j, step, c, |s|)];
      && (c < Lead(s, j, step, k, 0) ==> x.Full? && x.key != k)
      && (c == Lead(s, j, step, k, 0) ==> !(x.Full? && x.key != k))
  {
  }

  class DoubleHashingHashMap<V> {
    var table: array<Slot<V>>
    /** `_n`: the number of stored items. */
    var n: nat
    /** `_collisions`: the probe steps counted over the map's lifetime. */
    var collisions: nat
    const prime: int
    const scale: int
    const shift: int

    ghost predicate Valid()
      reads this`table, this`n, table
    {
      && 2 <= prime && 1 <= scale < prime && 0 <= shift < prime
      && Chained(table[..], scale, shift, prime)
      && n == |FullSet(table[..])|
    }

    /** The map the table represents. */
    ghost function Mapping(): map<string, V>
      reads this`table, table
    {
      SlotsMap(table[..])
    }

    /** The number of leading probes of `k`'s chain that meet another key: what `_find_slot` counts. */
    ghost function LeadOf(k: string): nat
      reads this`table, table
      requires table.Length >= 4 && 0 <= scale && 0 <= shift && 0 < prime
    {
      Lead(table[..], Home(k, scale, shift, prime, table.Length), Step(k, table.Length), k, 0)
    }

    /**
     * `DoubleHashingHashMap(cap, p)`: `cap` empty slots, MAD prime `p`, and the scale and shift the
     * base class draws from `[1, p)` and `[0, p)`.
     */
    constructor (cap: nat, p: int, sc: int, sh: int)
      requires cap >= 4 && 2 <= p && 1 <= sc < p && 0 <= sh < p
      ensures Valid() && fresh(table) && table.Length == cap
      ensures Mapping() == map[] && n == 0 && collisions == 0
    {
      prime, scale, shift := p, sc, sh;
      table := new Slot<V>[cap](_ => Empty);
      n, collisions := 0, 0;
      new;
      EmptyTable(table[..], sc, sh, p);
    }

    /** `len(self)`: the size counter, which is the number of keys mapped. */
    function Len(): (r: nat)
      reads this`table, this`n, table
      requires Valid()
      ensures r == |Mapping()|
    {
      SlotsMapSize(table[..]);
      n
    }

    /** `get_collisions()`. */
    function GetCollisions(): (r: nat)
      reads this
      ensures r == collisions
    {
      collisions
    }

    /** `_hash_code(k)`: `ord(k[0])`, then `h + ord(c) + 33 * h` for each later character; IndexError on `""`. */
    method HashCode(k: string) returns (r: Result<nat, Error>)
      ensures r.Failure? <==> |k| == 0
      ensures r.Failure? ==> r.error == IndexError
      ensures r.Success? ==> r.value == PolyHash(k)
    {
      if |k| == 0 {
        return Failure(IndexError);
      }
      var h: nat := k[0] as nat;
      assert k[..1] == [k[0]] && [k[0]][1..] == [];
      var i := 1;
      while i < |k|
        invariant 1 <= i <= |k|
        invariant h == PolyHash(k[..i])
      {
        PolyHashSnoc(k[..i], k[i]);
        assert k[..i + 1] == k[..i] + [k[i]];
        h := h + k[i] as nat + 33 * h;
        i := i + 1;
      }
      assert k[..i] == k;
      return Success(h);
    }

    /** `_hash_function(k)`: the home slot of `k`. */
    method HashFunction(k: string) returns (r: Result<nat, Error>)
      requires Valid()
      ensures r.Failure? <==> |k| == 0
      ensures r.Failure? ==> r.error == IndexError
      ensures r.Success? ==> r.value == Home(k, scale, shift, prime, table.Length) && r.value < table.Length
    {
      var h := HashCode(k);
      if h.Failure? {
        return Failure(h.error);
      }
      return Success((h.value * scale + shift) % prime % table.Length);
    }

    /** `_second_hash(k, count_collision)`: the probe step of `k`, counting one collision when asked. */
    method SecondHash(k: string, countCollision: bool) returns (d: nat)
      requires table.Length >= 4 && |k| > 0
      modifies this`collisions
      ensures d == Step(k, table.Length) && 0 < d < table.Length
      ensures collisions == old(collisions) + (if countCollision then 1 else 0)
    {
      if countCollision {
        collisions := collisions + 1;
      }
      var h := HashCode(k);
      var q := PrevPrime(table.Length - 1);
      d := q - h.value % q;
    }

    /**
     * `_find_slot(j, k, count_collision)`: follows `k`'s probe sequence from its home slot `j`.
     * Returns `(true, i)` with `table[i]` holding `k` when `k` is stored; otherwise `(false, f)`
     * where `f` is the first available slot on the sequence, or None when every probe met
     * another key. The collisions counted are the probe steps taken before any available slot.
     */
    method FindSlot(j: nat, k: string, countCollision: bool) returns (found: bool, slot: Option<nat>)
      requires table.Length >= 4 && 0 <= scale && 0 <= shift && 0 < prime
      requires |k| > 0 && j == Home(k, scale, shift, prime, table.Length)
      modifies this`collisions
      ensures Chained(table[..], scale, shift, prime) ==> (found <==> k in Mapping())
      ensures found ==> slot.Some? && slot.value < table.Length && table[slot.value].Full? && table[slot.value].key == k
      ensures !found ==> (slot.None? <==> old(LeadOf(k)) == table.Length)
      ensures !found && slot.Some? ==> slot.value == Probe(j, Step(k, table.Length), old(LeadOf(k)), table.Length)
      ensures collisions == old(collisions) + (if countCollision then old(LeadOf(k)) else 0)
    {
      ghost var T;
      found, slot, T := ProbeChain(j, k, countCollision);
      FindSlotOutcome(table[..], scale, shift, prime, k, T, found, slot);
    }

    /** The loop of `_find_slot`: probes the chain of `k` until it meets `k`, an empty slot, or has made a full cycle. */
    method ProbeChain(j: nat, k: string, countCollision: bool) returns (found: bool, slot: Option<nat>, ghost T: nat)
      requires table.Length >= 4 && |k| > 0 && j < table.Length
      modifies this`collisions
      ensures Scanned(table[..], j, Step(k, table.Length), k, T, found, slot)
      ensures collisions == old(collisions) + (if countCollision then Min(T, Lead(table[..], j, Step(k, table.Length), k, 0)) else 0)
    {
      var m := table.Length;
      ghost var s := table[..];
      ghost var step := Step(k, m);
      ghost var lead := Lead(s, j, step, k, 0);
      var firstAvail: Option<nat> := None;
      var count := 0;
      var i := j;
      found, slot, T := false, None, 0;
      DivModUnique(j, m, 0, j);
      while true
        invariant 0 <= count <= m && table[..] == s
        invariant i == Probe(j, step, count, m)
        invariant forall u :: 0 <= u < count ==> Passed(s[Probe(j, step, u, m)], k)
        invariant firstAvail == if lead < count then Some(Probe(j, step, lead, m)) else None
        invariant collisions == old(collisions) + (if countCollision then Min(count, lead) else 0)
        decreases m - count
      {
        if count == m {
          slot, T := firstAvail, m;
          return;
        }
        count := count + 1;
        assert table[i] == s[Probe(j, step, count - 1, m)];
        LeadAt(s, j, step, k, count - 1);
        if firstAvail.None? && !table[i].Full? {
          firstAvail := Some(i);
        }
        if table[i].Empty? {
          slot, T := firstAvail, count - 1;
          return;
        }
        if table[i].Full? && table[i].key == k {
          found, slot, T := true, Some(i), count - 1;
          return;
        }
        PassedExtend(s, j, step, k, count - 1);
        var d := SecondHash(k, countCollision && firstAvail.None?);
        i := (i + d) % m;
        ProbeSucc(j, step, count - 1, m);
      }
    }

    /**
     * `_bucket_setitem(j, k, v, count_collisions)`: a stored `k` gets the value `v`; otherwise
     * `k` goes into the first available slot of its chain and `_n` grows by one. When every probe
     * meets another key there is no such slot and the write `self._table[None]` raises TypeError,
     * which cannot happen in a prime-sized table with a free slot.
     */
    method BucketSetItem(j: nat, k: string, v: V, countCollisions: bool) returns (r: Result<(), Error>)
      requires Valid() && |k| > 0 && j == Home(k, scale, shift, prime, table.Length)
      modifies this`n, this`collisions, table
      ensures Valid()
      ensures collisions == old(collisions) + (if countCollisions then old(LeadOf(k)) else 0)
      ensures r.Failure? <==> k !in old(Mapping()) && old(LeadOf(k)) == table.Length
      ensures r.Failure? ==> r.error == TypeError && table[..] == old(table[..]) && n == old(n)
      ensures r.Success? ==> Mapping() == old(Mapping())[k := v]
      ensures r.Success? ==> n == old(n) + (if k in old(Mapping()) then 0 else 1)
      ensures IsPrime(table.Length) && old(n) < table.Length ==> r.Success?
    {
      ghost var s := table[..];
      var found, slot := FindSlot(j, k, countCollisions);
      if !found {
        if slot.None? {
          if IsPrime(table.Length) {
            NoRoomMeansFull(s, j, Step(k, table.Length), k);
          }
          return Failure(TypeError);
        }
        var i := slot.value;
        KeyMapped(s, k);
        InsertAtFirstFree(s, scale, shift, prime, k, v, i);
        table[i] := Full(k, v);
        n := n + 1;
        assert table[..] == s[i := Full(k, v)];
      } else {
        var i := slot.value;
        Overwrite(s, scale, shift, prime, i, v);
        table[i] := Full(k, v);
        assert table[..] == s[i := Full(s[i].key, v)];
      }
      return Success(());
    }

    /**
     * `_resize(c)`: a fresh table of `c` empty slots, into which every stored pair is inserted
     * again in slot order without counting collisions. A pair that finds no slot raises
     * TypeError and leaves the pairs inserted so far; with a prime `c` no smaller than the
     * number of pairs every insertion succeeds.
     */
    method Resize(c: nat) returns (r: Result<(), Error>)
      requires Valid() && c >= 4
      modifies this
      ensures Valid() && fresh(table) && table.Length == c && collisions == old(collisions)
      ensures r.Success? ==> Mapping() == old(Mapping()) && n == |old(Mapping())|
      ensures r.Failure? ==> r.error == TypeError
      ensures r.Failure? ==> exists i :: 0 <= i < |FullItems(old(table[..]))| && Mapping() == ItemsMap(FullItems(old(table[..]))[..i])
      ensures IsPrime(c) && |old(Mapping())| <= c ==> r.Success?
    {
      var items := FullItems(table[..]);
      ItemsOfChained(table[..], scale, shift, prime);
      table := new Slot<V>[c](_ => Empty);
      n := 0;
      EmptyTable(table[..], scale, shift, prime);
      assert items[..0] == [];
      var i := 0;
      while i < |items|
        invariant 0 <= i <= |items|
        invariant Valid() && fresh(table) && table.Length == c
        invariant Mapping() == ItemsMap(items[..i]) && n == i
        invariant collisions == old(collisions)
      {
        var rr := Reinsert(items, i);
        if rr.Failure? {
          return rr;
        }
        i := i + 1;
      }
      assert items[..i] == items;
      return Success(());
    }

    /** One step of the loop of `_resize`: hashes the `i`-th recorded pair and stores it, counting no collisions. */
    method Reinsert(items: seq<(string, V)>, i: nat) returns (r: Result<(), Error>)
      requires Valid() && i < |items| && DistinctKeys(items)
      requires forall t :: 0 <= t < |items| ==> |items[t].0| > 0
      requires Mapping() == ItemsMap(items[..i]) && n == i
      modifies this`n, this`collisions, table
      ensures Valid() && collisions == old(collisions)
      ensures r.Success? ==> Mapping() == ItemsMap(items[..i + 1]) && n == i + 1
      ensures r.Failure? ==> r.error == TypeError && Mapping() == old(Mapping())
      ensures IsPrime(table.Length) && i < table.Length ==> r.Success?
    {
      var (key, val) := items[i];
      var j := HashFunction(key);
      ItemsMapPrefix(items, i);
      r := BucketSetItem(j.value, key, val, false);
    }

    /**
     * `self[k] = v`: IndexError for the empty key; otherwise the bucket assignment, after which a
     * size above `round(0.49 * cap)` grows the table to `prevprime(2 * cap)`.
     */
    method SetItem(k: string, v: V) returns (r: Result<(), Error>)
      requires Valid()
      modifies this, table
      ensures Valid()
      ensures |k| == 0 ==> r == Failure(IndexError) && table == old(table) && table[..] == old(table[..]) && n == old(n)
      ensures |k| == 0 ==> collisions == old(collisions)
      ensures |k| > 0 ==> collisions == old(collisions) + old(LeadOf(k))
      ensures |k| > 0 && r.Failure? ==> r.error == TypeError
      ensures r.Success? ==> Mapping() == old(Mapping())[k := v] && n == |Mapping()|
      ensures r.Success? ==> (table.Length ==
        if |old(Mapping())[k := v]| > GrowThreshold(old(table.Length)) then PrevPrime(2 * old(table.Length)) else old(table.Length))
      ensures |k| > 0 && IsPrime(old(table.Length)) && old(n) < old(table.Length) && old(n) < PrevPrime(2 * old(table.Length)) ==> r.Success?
    {
      var j := HashFunction(k);
      if j.Failure? {
        return Failure(j.error);
      }
      ghost var cap := table.Length;
      r := BucketSetItem(j.value, k, v, true);
      if r.Failure? {
        return;
      }
      SlotsMapSize(table[..]);
      if n > GrowThreshold(table.Length) {
        GrownCapacity(table.Length);
        r := Resize(PrevPrime(2 * table.Length));
      }
      SlotsMapSize(table[..]);
    }

    /**
     * `del self[k]`: IndexError for the empty key, KeyError when `k` is absent; otherwise its
     * slot becomes `_AVAIL` and `_n` drops by one, after which a size below `round(0.21 * cap)`
     * in a table other than 17 slots shrinks it to `max(17, nextprime(cap // 2))`.
     */
    method DelItem(k: string) returns (r: Result<(), Error>)
      requires Valid()
      modifies this, table
      ensures Valid() && collisions == old(collisions)
      ensures r.Success? <==> |k| > 0 && k in old(Mapping())
      ensures r.Failure? ==> r.error == (if |k| == 0 then IndexError else KeyError)
      ensures r.Failure? ==> table == old(table) && table[..] == old(table[..]) && n == old(n)
      ensures r.Success? ==> Mapping() == old(Mapping()) - {k} && n == old(n) - 1
      ensures r.Success? ==> (table.Length ==
        if n < ShrinkThreshold(old(table.Length)) && old(table.Length) != 17 then ShrunkCapacity(old(table.Length)) else old(table.Length))
    {
      var j := HashFunction(k);
      if j.Failure? {
        return Failure(j.error);
      }
      ghost var s := table[..];
      var found, slot := FindSlot(j.value, k, false);
      if !found {
        return Failure(KeyError);
      }
      var i := slot.value;
      FreeSlot(s, scale, shift, prime, i);
      table[i] := Avail;
      n := n - 1;
      assert table[..] == s[i := Avail];
      if n < ShrinkThreshold(table.Length) && table.Length != 17 {
        ShrinkFits(table.Length, n);
        SlotsMapSize(table[..]);
        var rr := Resize(ShrunkCapacity(table.Length));
      }
      return Success(());
    }
  }
}
