/**
 * The slot array of the double-hashing table (project1/double_hashing_hash_map.py) seen as a
 * sequence: the hash code and the two hashes, the probe sequence they define, the map the
 * occupied slots represent, and the invariant that makes a probe search find every stored key.
 */
module ProbeSlots {
  import opened Primes

  /** A bucket: never used (`None`), freed by a deletion (`_AVAIL`), or holding an item. */
  datatype Slot<V> = Empty | Avail | Full(key: string, value: V)

  // ---------------------------------------------------------------------------
  // Hashing
  // ---------------------------------------------------------------------------

  function Pow34(e: nat): (r: nat)
    ensures r >= 1
  {
    if e == 0 then 1 else 34 * Pow34(e - 1)
  }

  /** The hash code as a polynomial: the sum of `ord(k[i]) * 34^(|k|-1-i)`. */
  function PolyHash(k: string): nat
  {
    if k == [] then 0 else k[0] as nat * Pow34(|k| - 1) + PolyHash(k[1..])
  }

  /** Appending a character multiplies the code by 34 and adds the character (Horner's rule). */
  lemma {:induction false} PolyHashSnoc(k: string, c: char)
    ensures PolyHash(k + [c]) == 34 * PolyHash(k) + c as nat
  {
    if k == [] {
      assert [c][1..] == [];
    } else {
      assert (k + [c])[1..] == k[1..] + [c];
      PolyHashSnoc(k[1..], c);
      assert Pow34(|k|) == 34 * Pow34(|k| - 1);
      calc {
        PolyHash(k + [c]);
        k[0] as nat * Pow34(|k|) + PolyHash(k[1..] + [c]);
        k[0] as nat * (34 * Pow34(|k| - 1)) + 34 * PolyHash(k[1..]) + c as nat;
        34 * (k[0] as nat * Pow34(|k| - 1) + PolyHash(k[1..])) + c as nat;
      }
    }
  }

  /** The home slot: the MAD compression of the hash code, reduced to the table size. */
  function Home(k: string, scale: int, shift: int, prime: int, m: int): (j: nat)
    requires 0 <= scale && 0 <= shift && 0 < prime && 0 < m
    ensures j < m
  {
    (PolyHash(k) * scale + shift) % prime % m
  }

  /** The double-hash step: `q - code % q` for the largest prime `q` below `m - 1`. */
  function Step(k: string, m: int): (d: nat)
    requires m >= 4
    ensures 1 <= d <= PrevPrime(m - 1) && d < m - 1
  {
    var q := PrevPrime(m - 1);
    q - PolyHash(k) % q
  }

  /** The slot inspected after `t` steps from `j`. */
  function Probe(j: nat, step: nat, t: nat, m: nat): (i: nat)
    requires m > 0
    ensures i < m
  {
    if t == 0 then j % m else (Probe(j, step, t - 1, m) + step) % m
  }

  lemma {:induction false} ProbeClosed(j: nat, step: nat, t: nat, m: nat)
    requires m > 0
    ensures Probe(j, step, t, m) == (j + t * step) % m
  {
    if t > 0 {
      ProbeClosed(j, step, t - 1, m);
      ProbeStep(Probe(j, step, t - 1, m), j + (t - 1) * step, step, m);
      MulSucc(t - 1, step);
    }
  }

  lemma ProbeStep(p: int, x: int, step: int, m: int)
    requires m > 0 && p == x % m
    ensures (p + step) % m == (x + step) % m
  {
    AddMod(x, step, m);
  }

  lemma MulSucc(t: nat, step: nat)
    ensures t * step + step == (t + 1) * step
  {
  }

  /** With a prime table size, the first `m` probes are `m` different slots. */
  lemma ProbesDistinct(j: nat, step: nat, m: nat, t1: nat, t2: nat)
    requires IsPrime(m) && 0 < step < m && t1 < t2 < m
    ensures Probe(j, step, t1, m) != Probe(j, step, t2, m)
  {
    ProbeClosed(j, step, t1, m);
    ProbeClosed(j, step, t2, m);
    OffsetsDistinct(m, j, step, t1, t2);
  }

  function ProbeSet(j: nat, step: nat, t: nat, m: nat): set<nat>
    requires m > 0
  {
    set u | 0 <= u < t :: Probe(j, step, u, m)
  }

  lemma {:induction false} ProbeSetSize(j: nat, step: nat, t: nat, m: nat)
    requires IsPrime(m) && 0 < step < m && t <= m
    ensures |ProbeSet(j, step, t, m)| == t
  {
    if t > 0 {
      ProbeSetSize(j, step, t - 1, m);
      ProbeSetSnoc(j, step, t - 1, m);
    }
  }

  /** One more probe adds a slot not visited before. */
  lemma ProbeSetSnoc(j: nat, step: nat, t: nat, m: nat)
    requires IsPrime(m) && 0 < step < m && t < m
    ensures ProbeSet(j, step, t + 1, m) == ProbeSet(j, step, t, m) + {Probe(j, step, t, m)}
    ensures Probe(j, step, t, m) !in ProbeSet(j, step, t, m)
  {
    assert ProbeSet(j, step, t + 1, m) == ProbeSet(j, step, t, m) + {Probe(j, step, t, m)};
    forall u | 0 <= u < t ensures Probe(j, step, u, m) != Probe(j, step, t, m) {
      ProbesDistinct(j, step, m, u, t);
    }
  }

  // ---------------------------------------------------------------------------
  // Occupancy and the represented map
  // ---------------------------------------------------------------------------

  function FullSet<V>(s: seq<Slot<V>>): set<nat>
  {
    set i | 0 <= i < |s| && s[i].Full?
  }

  /** When all `m` probes of a prime-sized table hit occupied slots, every slot is occupied. */
  lemma FullProbesFillTable<V>(s: seq<Slot<V>>, j: nat, step: nat)
    requires IsPrime(|s|) && 0 < step < |s|
    requires forall u :: 0 <= u < |s| ==> s[Probe(j, step, u, |s|)].Full?
    ensures |FullSet(s)| == |s|
  {
    var m := |s|;
    ProbeSetSize(j, step, m, m);
    assert ProbeSet(j, step, m, m) <= FullSet(s);
    SubsetSize(ProbeSet(j, step, m, m), FullSet(s));
    FullItemsSize(s);
  }

  lemma SubsetSize<T>(a: set<T>, b: set<T>)
    requires a <= b
    ensures |a| <= |b|
  {
    assert b == a + (b - a);
  }

  /** No key is stored twice. */
  ghost predicate UniqueKeys<V>(s: seq<Slot<V>>)
  {
    forall i, j :: 0 <= i < |s| && 0 <= j < |s| && s[i].Full? && s[j].Full? && s[i].key == s[j].key ==> i == j
  }

  ghost predicate Holds<V>(s: seq<Slot<V>>, k: string)
  {
    exists i :: 0 <= i < |s| && s[i].Full? && s[i].key == k
  }

  /** `list(self.items())`: the stored pairs in slot order. */
  function FullItems<V>(s: seq<Slot<V>>): (r: seq<(string, V)>)
    ensures |r| <= |s|
  {
    if s == [] then []
    else FullItems(s[..|s| - 1]) + (if s[|s| - 1].Full? then [(s[|s| - 1].key, s[|s| - 1].value)] else [])
  }

  /** The map a list of pairs denotes when assigned in order. */
  function ItemsMap<V>(l: seq<(string, V)>): map<string, V>
  {
    if l == [] then map[] else ItemsMap(l[..|l| - 1])[l[|l| - 1].0 := l[|l| - 1].1]
  }

  /** The map the table represents. */
  function SlotsMap<V>(s: seq<Slot<V>>): map<string, V>
  {
    ItemsMap(FullItems(s))
  }

  ghost predicate DistinctKeys<V>(l: seq<(string, V)>)
  {
    forall t, u :: 0 <= t < u < |l| ==> l[t].0 != l[u].0
  }

  /** The slot a listed pair comes from. */
  lemma {:induction false} SourceOf<V>(s: seq<Slot<V>>, t: nat) returns (i: nat)
    requires t < |FullItems(s)|
    ensures i < |s| && s[i] == Full(FullItems(s)[t].0, FullItems(s)[t].1)
  {
    var s' := s[..|s| - 1];
    if t < |FullItems(s')| {
      i := SourceOf(s', t);
    } else {
      i := |s| - 1;
    }
  }

  /** The position in the list of the pair an occupied slot holds. */
  lemma {:induction false} ItemOf<V>(s: seq<Slot<V>>, i: nat) returns (t: nat)
    requires i < |s| && s[i].Full?
    ensures t < |FullItems(s)| && FullItems(s)[t] == (s[i].key, s[i].value)
  {
    var s' := s[..|s| - 1];
    if i < |s| - 1 {
      t := ItemOf(s', i);
    } else {
      t := |FullItems(s')|;
    }
  }

  lemma {:induction false} FullItemsSize<V>(s: seq<Slot<V>>)
    ensures |FullItems(s)| == |FullSet(s)|
  {
    if s != [] {
      var s' := s[..|s| - 1];
      FullItemsSize(s');
      if s[|s| - 1].Full? {
        assert FullSet(s) == FullSet(s') + {|s| - 1};
      } else {
        assert FullSet(s) == FullSet(s');
      }
    }
  }

  lemma {:induction false} FullItemsDistinct<V>(s: seq<Slot<V>>)
    requires UniqueKeys(s)
    ensures DistinctKeys(FullItems(s))
  {
    if s != [] {
      var s' := s[..|s| - 1];
      var x := s[|s| - 1];
      assert UniqueKeys(s');
      FullItemsDistinct(s');
      if x.Full? {
        forall t | 0 <= t < |FullItems(s')| ensures FullItems(s')[t].0 != x.key {
          var i := SourceOf(s', t);
          assert s[i] == s'[i];
        }
      }
    }
  }

  /** The map's keys are the listed keys. */
  lemma {:induction false} ItemsMapKeys<V>(l: seq<(string, V)>)
    ensures forall k :: k in ItemsMap(l) <==> exists t :: 0 <= t < |l| && l[t].0 == k
  {
    if l != [] {
      var l' := l[..|l| - 1];
      ItemsMapKeys(l');
      forall k | exists t :: 0 <= t < |l| && l[t].0 == k
        ensures k in ItemsMap(l)
      {
        var t :| 0 <= t < |l| && l[t].0 == k;
        if t < |l| - 1 {
          assert l'[t].0 == k;
        }
      }
    }
  }

  /** With distinct keys, every listed key maps to its own value. */
  lemma {:induction false} ItemsMapValues<V>(l: seq<(string, V)>)
    requires DistinctKeys(l)
    ensures forall t :: 0 <= t < |l| ==> l[t].0 in ItemsMap(l) && ItemsMap(l)[l[t].0] == l[t].1
  {
    if l != [] {
      var l' := l[..|l| - 1];
      ItemsMapValues(l');
      forall t | 0 <= t < |l| ensures l[t].0 in ItemsMap(l) && ItemsMap(l)[l[t].0] == l[t].1 {
        if t < |l| - 1 {
          assert l'[t] == l[t];
        }
      }
    }
  }

  /** With distinct keys, the map has one entry per pair. */
  lemma {:induction false} ItemsMapSize<V>(l: seq<(string, V)>)
    requires DistinctKeys(l)
    ensures |ItemsMap(l)| == |l|
  {
    if l != [] {
      var l' := l[..|l| - 1];
      ItemsMapSize(l');
      ItemsMapKeys(l');
    }
  }

  /** With unique keys, the map holds exactly the stored keys, each with its slot's value, one per occupied slot. */
  lemma SlotsMapSpec<V>(s: seq<Slot<V>>)
    requires UniqueKeys(s)
    ensures forall k :: k in SlotsMap(s) <==> Holds(s, k)
    ensures forall i :: 0 <= i < |s| && s[i].Full? ==> s[i].key in SlotsMap(s) && SlotsMap(s)[s[i].key] == s[i].value
  {
    var l := FullItems(s);
    FullItemsDistinct(s);
    ItemsMapKeys(l);
    ItemsMapValues(l);
    forall k ensures k in SlotsMap(s) <==> Holds(s, k) {
      if k in SlotsMap(s) {
        var t :| 0 <= t < |l| && l[t].0 == k;
        var i := SourceOf(s, t);
        assert s[i].Full? && s[i].key == k;
      }
      if Holds(s, k) {
        var i :| 0 <= i < |s| && s[i].Full? && s[i].key == k;
        var t := ItemOf(s, i);
      }
    }
    forall i | 0 <= i < |s| && s[i].Full? ensures s[i].key in SlotsMap(s) && SlotsMap(s)[s[i].key] == s[i].value {
      var t := ItemOf(s, i);
    }
  }

  lemma KeyMapped<V>(s: seq<Slot<V>>, k: string)
    requires UniqueKeys(s)
    ensures k in SlotsMap(s) <==> Holds(s, k)
  {
    SlotsMapSpec(s);
  }

  /** The map has one entry per occupied slot. */
  lemma SlotsMapSize<V>(s: seq<Slot<V>>)
    requires UniqueKeys(s)
    ensures |SlotsMap(s)| == |FullSet(s)|
  {
    FullItemsSize(s);
    FullItemsDistinct(s);
    ItemsMapSize(FullItems(s));
  }

  // ---------------------------------------------------------------------------
  // The probe-chain invariant
  // ---------------------------------------------------------------------------

  /** No slot among the first `t` probes from `j` has ever been empty. */
  ghost predicate Clear<V>(s: seq<Slot<V>>, j: nat, step: nat, t: nat)
    requires |s| > 0
  {
    forall u :: 0 <= u < t ==> !s[Probe(j, step, u, |s|)].Empty?
  }

  /** The key at slot `i` lies on its own probe sequence, with no empty slot before it. */
  ghost predicate OnChain<V>(s: seq<Slot<V>>, i: nat, scale: int, shift: int, prime: int)
    requires |s| >= 4 && 0 <= scale && 0 <= shift && 0 < prime && i < |s| && s[i].Full?
  {
    var k := s[i].key;
    var j, step := Home(k, scale, shift, prime, |s|), Step(k, |s|);
    exists t :: 0 <= t < |s| && Probe(j, step, t, |s|) == i && Clear(s, j, step, t)
  }

  /** The table invariant: keys are unique and non-empty and each lies on its probe chain. */
  ghost predicate Chained<V>(s: seq<Slot<V>>, scale: int, shift: int, prime: int)
  {
    && |s| >= 4 && 0 <= scale && 0 <= shift && 0 < prime
    && UniqueKeys(s)
    && (forall i :: 0 <= i < |s| && s[i].Full? ==> |s[i].key| > 0)
    && (forall i {:trigger OnChain(s, i, scale, shift, prime)} :: 0 <= i < |s| && s[i].Full? ==> OnChain(s, i, scale, shift, prime))
  }

  lemma ChainedAt<V>(s: seq<Slot<V>>, scale: int, shift: int, prime: int, i: nat)
    requires Chained(s, scale, shift, prime) && i < |s| && s[i].Full?
    ensures OnChain(s, i, scale, shift, prime)
  {
  }

  /**
   * The number of leading probes from the `t`-th on that hit a slot holding another key: the
   * probes after which `_find_slot` has still seen no available slot.
   */
  ghost function Lead<V>(s: seq<Slot<V>>, j: nat, step: nat, k: string, t: nat): (r: nat)
    requires |s| > 0 && t <= |s|
    ensures t + r <= |s|
    ensures forall u :: t <= u < t + r ==> s[Probe(j, step, u, |s|)].Full? && s[Probe(j, step, u, |s|)].key != k
    ensures t + r < |s| ==> !(s[Probe(j, step, t + r, |s|)].Full? && s[Probe(j, step, t + r, |s|)].key != k)
    decreases |s| - t
  {
    if t == |s| then 0
    else
      var x := s[Probe(j, step, t, |s|)];
      if x.Full? && x.key != k then 1 + Lead(s, j, step, k, t + 1) else 0
  }

  /**
   * A search for `k` along its own chain that passed `T` probes without meeting `k`, and then
   * either ran out of probes or met an empty slot, proves `k` absent.
   */
  lemma MissMeansAbsent<V>(s: seq<Slot<V>>, scale: int, shift: int, prime: int, k: string, T: nat)
    requires Chained(s, scale, shift, prime) && T <= |s|
    requires var j, step := Home(k, scale, shift, prime, |s|), Step(k, |s|);
      && (forall u :: 0 <= u < T ==> !(s[Probe(j, step, u, |s|)].Full? && s[Probe(j, step, u, |s|)].key == k))
      && (T < |s| ==> s[Probe(j, step, T, |s|)].Empty?)
    ensures !Holds(s, k)
  {
    var j, step := Home(k, scale, shift, prime, |s|), Step(k, |s|);
    if Holds(s, k) {
      var i :| 0 <= i < |s| && s[i].Full? && s[i].key == k;
      ChainedAt(s, scale, shift, prime, i);
    }
  }

  /**
   * Writing a non-empty slot keeps every key that stays where it was on its chain: no probe
   * sequence gains an empty slot.
   */
  lemma NonEmptyWrite<V>(s: seq<Slot<V>>, i: nat, x: Slot<V>, scale: int, shift: int, prime: int)
    requires Chained(s, scale, shift, prime) && i < |s| && !x.Empty?
    ensures forall h :: 0 <= h < |s| && s[h].Full? && s[i := x][h] == s[h] ==> OnChain(s[i := x], h, scale, shift, prime)
  {
    var s' := s[i := x];
    forall h | 0 <= h < |s| && s[h].Full? && s'[h] == s[h] ensures OnChain(s', h, scale, shift, prime) {
      var k := s[h].key;
      var j, step := Home(k, scale, shift, prime, |s|), Step(k, |s|);
      assert OnChain(s, h, scale, shift, prime);
      var t :| 0 <= t < |s| && Probe(j, step, t, |s|) == h && Clear(s, j, step, t);
      assert Clear(s', j, step, t);
    }
  }

  // ---------------------------------------------------------------------------
  // The three writes the table performs
  // ---------------------------------------------------------------------------

  /** A non-empty write that keeps keys unique and puts a written key on its chain keeps the invariant. */
  lemma ChainedAfterWrite<V>(s: seq<Slot<V>>, i: nat, x: Slot<V>, scale: int, shift: int, prime: int)
    requires Chained(s, scale, shift, prime) && i < |s| && !x.Empty?
    requires UniqueKeys(s[i := x])
    requires x.Full? ==> |x.key| > 0 && OnChain(s[i := x], i, scale, shift, prime)
    ensures Chained(s[i := x], scale, shift, prime)
  {
    NonEmptyWrite(s, i, x, scale, shift, prime);
    var s' := s[i := x];
    forall h | 0 <= h < |s'| && s'[h].Full? ensures |s'[h].key| > 0 && OnChain(s', h, scale, shift, prime) {
      if h != i {
        assert s'[h] == s[h];
      }
    }
  }

  /** Storing a new key in the first available slot of its chain. */
  lemma InsertAtFirstFree<V>(s: seq<Slot<V>>, scale: int, shift: int, prime: int, k: string, v: V, i: nat)
    requires Chained(s, scale, shift, prime) && |k| > 0 && !Holds(s, k)
    requires Lead(s, Home(k, scale, shift, prime, |s|), Step(k, |s|), k, 0) < |s|
    requires i == Probe(Home(k, scale, shift, prime, |s|), Step(k, |s|), Lead(s, Home(k, scale, shift, prime, |s|), Step(k, |s|), k, 0), |s|)
    ensures !s[i].Full?
    ensures Chained(s[i := Full(k, v)], scale, shift, prime)
    ensures SlotsMap(s[i := Full(k, v)]) == SlotsMap(s)[k := v]
    ensures FullSet(s[i := Full(k, v)]) == FullSet(s) + {i}
  {
    var j, step := Home(k, scale, shift, prime, |s|), Step(k, |s|);
    var lead := Lead(s, j, step, k, 0);
    var s' := s[i := Full(k, v)];
    UniqueAfterInsert(s, i, k, v);
    NewOnChain(s, scale, shift, prime, k, v, i);
    ChainedAfterWrite(s, i, Full(k, v), scale, shift, prime);
    MapExt(s, s', k, v, i);
  }

  lemma NewOnChain<V>(s: seq<Slot<V>>, scale: int, shift: int, prime: int, k: string, v: V, i: nat)
    requires |s| >= 4 && 0 <= scale && 0 <= shift && 0 < prime && i < |s|
    requires Lead(s, Home(k, scale, shift, prime, |s|), Step(k, |s|), k, 0) < |s|
    requires i == Probe(Home(k, scale, shift, prime, |s|), Step(k, |s|), Lead(s, Home(k, scale, shift, prime, |s|), Step(k, |s|), k, 0), |s|)
    ensures OnChain(s[i := Full(k, v)], i, scale, shift, prime)
  {
    var j, step := Home(k, scale, shift, prime, |s|), Step(k, |s|);
    var lead := Lead(s, j, step, k, 0);
    assert Clear(s[i := Full(k, v)], j, step, lead);
  }

  lemma UniqueAfterInsert<V>(s: seq<Slot<V>>, i: nat, k: string, v: V)
    requires UniqueKeys(s) && i < |s| && !s[i].Full? && !Holds(s, k)
    ensures UniqueKeys(s[i := Full(k, v)])
  {
    var s' := s[i := Full(k, v)];
    forall a, b | 0 <= a < |s'| && 0 <= b < |s'| && s'[a].Full? && s'[b].Full? && s'[a].key == s'[b].key ensures a == b {
      if a != i && b != i {
        assert s[a].key == s[b].key;
      }
    }
  }

  /** Replacing the value of a stored key in place. */
  lemma Overwrite<V>(s: seq<Slot<V>>, scale: int, shift: int, prime: int, i: nat, v: V)
    requires Chained(s, scale, shift, prime) && i < |s| && s[i].Full?
    ensures Chained(s[i := Full(s[i].key, v)], scale, shift, prime)
    ensures SlotsMap(s[i := Full(s[i].key, v)]) == SlotsMap(s)[s[i].key := v]
    ensures FullSet(s[i := Full(s[i].key, v)]) == FullSet(s)
  {
    var k := s[i].key;
    var s' := s[i := Full(k, v)];
    assert OnChain(s', i, scale, shift, prime) by {
      var j, step := Home(k, scale, shift, prime, |s|), Step(k, |s|);
      assert OnChain(s, i, scale, shift, prime);
      var t :| 0 <= t < |s| && Probe(j, step, t, |s|) == i && Clear(s, j, step, t);
      assert Clear(s', j, step, t);
    }
    assert UniqueKeys(s') by {
      forall a, b | 0 <= a < |s'| && 0 <= b < |s'| && s'[a].Full? && s'[b].Full? && s'[a].key == s'[b].key ensures a == b {
        assert s[a].key == s[b].key;
      }
    }
    ChainedAfterWrite(s, i, Full(k, v), scale, shift, prime);
    MapExt(s, s', k, v, i);
  }

  /** Freeing the slot of a stored key with the `_AVAIL` marker. */
  lemma FreeSlot<V>(s: seq<Slot<V>>, scale: int, shift: int, prime: int, i: nat)
    requires Chained(s, scale, shift, prime) && i < |s| && s[i].Full?
    ensures Chained(s[i := Avail], scale, shift, prime)
    ensures SlotsMap(s[i := Avail]) == SlotsMap(s) - {s[i].key}
    ensures FullSet(s[i := Avail]) == FullSet(s) - {i} && i in FullSet(s)
  {
    var s' := s[i := Avail];
    assert UniqueKeys(s') by {
      forall a, b | 0 <= a < |s'| && 0 <= b < |s'| && s'[a].Full? && s'[b].Full? && s'[a].key == s'[b].key ensures a == b {
        assert s[a].key == s[b].key;
      }
    }
    ChainedAfterWrite(s, i, Avail, scale, shift, prime);
    FreeMap(s, s', i);
  }

  lemma FreeMap<V>(s: seq<Slot<V>>, s': seq<Slot<V>>, i: nat)
    requires UniqueKeys(s) && UniqueKeys(s') && i < |s| && s[i].Full? && s' == s[i := Avail]
    ensures SlotsMap(s') == SlotsMap(s) - {s[i].key}
  {
    SlotsMapSpec(s);
    SlotsMapSpec(s');
    var k := s[i].key;
    var m, m' := SlotsMap(s), SlotsMap(s');
    forall key | key in m && key != k ensures key in m' && m'[key] == m[key] {
      var h :| 0 <= h < |s| && s[h].Full? && s[h].key == key;
      assert s'[h] == s[h];
    }
    forall key | key in m' ensures key in m && key != k {
      var h :| 0 <= h < |s'| && s'[h].Full? && s'[h].key == key;
      assert s[h] == s'[h];
    }
  }

  /** The map after writing `Full(k, v)` at slot `i`, where slot `i` was free and `k` absent, or `i` held `k`. */
  lemma MapExt<V>(s: seq<Slot<V>>, s': seq<Slot<V>>, k: string, v: V, i: nat)
    requires UniqueKeys(s) && UniqueKeys(s') && i < |s| && s' == s[i := Full(k, v)]
    requires (!s[i].Full? && !Holds(s, k)) || (s[i].Full? && s[i].key == k)
    ensures SlotsMap(s') == SlotsMap(s)[k := v]
  {
    SlotsMapSpec(s);
    SlotsMapSpec(s');
    var m, m' := SlotsMap(s), SlotsMap(s');
    forall key ensures key in m' <==> key in m || key == k {
      if key in m && key != k {
        var h :| 0 <= h < |s| && s[h].Full? && s[h].key == key;
        assert s'[h] == s[h];
      }
      if key in m' && key != k {
        var h :| 0 <= h < |s'| && s'[h].Full? && s'[h].key == key;
        assert s[h] == s'[h];
      }
      if key == k {
        assert s'[i].Full? && s'[i].key == k;
      }
    }
    forall key | key in m' ensures m'[key] == m[k := v][key] {
      var h :| 0 <= h < |s'| && s'[h].Full? && s'[h].key == key;
      if h != i {
        assert s[h] == s'[h];
      }
    }
  }

  // ---------------------------------------------------------------------------
  // Facts the table operations use
  // ---------------------------------------------------------------------------

  /** A table of `None` slots satisfies the invariant and represents the empty map. */
  lemma EmptyTable<V>(s: seq<Slot<V>>, scale: int, shift: int, prime: int)
    requires |s| >= 4 && 0 <= scale && 0 <= shift && 0 < prime
    requires forall i :: 0 <= i < |s| ==> s[i] == Empty
    ensures Chained(s, scale, shift, prime)
    ensures FullSet(s) == {} && SlotsMap(s) == map[]
  {
    assert FullSet(s) == {};
    FullItemsSize(s);
  }

  /** In a prime-sized table, a search whose every probe meets another key means the table is full. */
  lemma NoRoomMeansFull<V>(s: seq<Slot<V>>, j: nat, step: nat, k: string)
    requires IsPrime(|s|) && 0 < step < |s|
    requires Lead(s, j, step, k, 0) == |s|
    ensures |FullSet(s)| == |s|
  {
    FullProbesFillTable(s, j, step);
  }

  /** The stored pairs have distinct, non-empty keys, and assigning them in order rebuilds the map. */
  lemma ItemsOfChained<V>(s: seq<Slot<V>>, scale: int, shift: int, prime: int)
    requires Chained(s, scale, shift, prime)
    ensures DistinctKeys(FullItems(s))
    ensures forall t :: 0 <= t < |FullItems(s)| ==> |FullItems(s)[t].0| > 0
    ensures |FullItems(s)| == |SlotsMap(s)|
  {
    FullItemsDistinct(s);
    FullItemsSize(s);
    SlotsMapSize(s);
    forall t | 0 <= t < |FullItems(s)| ensures |FullItems(s)[t].0| > 0 {
      var i := SourceOf(s, t);
    }
  }

  /** Assigning one more pair of a list with distinct keys adds a key not yet present. */
  lemma ItemsMapPrefix<V>(l: seq<(string, V)>, i: nat)
    requires DistinctKeys(l) && i < |l|
    ensures l[i].0 !in ItemsMap(l[..i])
    ensures ItemsMap(l[..i + 1]) == ItemsMap(l[..i])[l[i].0 := l[i].1]
  {
    assert l[..i + 1][..i] == l[..i];
    ItemsMapKeys(l[..i]);
  }
}
