/**
 * The number theory the double-hashing table relies on: the primes that `sympy.prevprime` and
 * `sympy.nextprime` return, and the fact that a step below a prime modulus visits every slot
 * before it repeats one.
 */
module Primes {

  predicate IsPrime(n: int)
  {
    n >= 2 && forall d :: 2 <= d < n ==> n % d != 0
  }

  /** `sympy.prevprime(n)`: the largest prime below `n` (sympy refuses `n < 3`). */
  function PrevPrime(n: int): (p: int)
    requires n >= 3
    ensures IsPrime(p) && p < n
    ensures forall m :: p < m < n ==> !IsPrime(m)
    decreases n
  {
    if IsPrime(n - 1) then n - 1 else PrevPrime(n - 1)
  }

  /** `sympy.nextprime(n)`: the least prime above `n`. */
  function NextPrime(n: nat): (p: nat)
    ensures IsPrime(p) && n < p
    ensures forall m :: n < m < p ==> !IsPrime(m)
  {
    EuclidPrimeAbove(n);
    NextPrimeFrom(n, n + 1)
  }

  function NextPrimeFrom(n: nat, m: nat): (p: nat)
    requires n < m <= EuclidPrime(n)
    requires forall j :: n < j < m ==> !IsPrime(j)
    ensures IsPrime(p) && n < p
    ensures forall j :: n < j < p ==> !IsPrime(j)
    decreases EuclidPrime(n) - m
  {
    EuclidPrimeAbove(n);
    if IsPrime(m) then m else NextPrimeFrom(n, m + 1)
  }

  // ---------------------------------------------------------------------------
  // Division facts
  // ---------------------------------------------------------------------------

  lemma MulNonneg(m: int, d: int)
    requires m >= 0 && d >= 0
    ensures m * d >= 0
  {
  }

  lemma MulBound(m: int, d: int)
    requires m > 0 && -m < m * d < m
    ensures d == 0
  {
    if d >= 1 {
      assert m * d == m * (d - 1) + m;
      MulNonneg(m, d - 1);
    } else if d <= -1 {
      assert m * d == -(m * (-d - 1)) - m;
      MulNonneg(m, -d - 1);
    }
  }

  /** Quotient and remainder are the only pair that rebuilds `x`. */
  lemma DivModUnique(x: int, m: int, q: int, r: int)
    requires m > 0 && x == m * q + r && 0 <= r < m
    ensures x % m == r && x / m == q
  {
    var q' := x / m;
    assert x == m * q' + x % m;
    assert m * (q - q') == x % m - r;
    MulBound(m, q - q');
  }

  lemma MulMod(m: int, c: int)
    requires m > 0
    ensures (m * c) % m == 0
  {
    DivModUnique(m * c, m, c, 0);
  }

  lemma ShiftMod(m: int, c: int, z: int)
    requires m > 0
    ensures (m * c + z) % m == z % m
  {
    assert z == m * (z / m) + z % m;
    assert m * c + z == m * (c + z / m) + z % m;
    DivModUnique(m * c + z, m, c + z / m, z % m);
  }

  lemma AddMod(x: int, y: int, m: int)
    requires m > 0
    ensures ((x % m) + y) % m == (x + y) % m
  {
    assert x == m * (x / m) + x % m;
    ShiftMod(m, x / m, x % m + y);
  }

  lemma DividesTrans(x: int, r: int, e: int)
    requires e > 0 && r > 0 && x % r == 0 && r % e == 0
    ensures x % e == 0
  {
    var k1, k2 := x / r, r / e;
    assert x == r * k1;
    assert r == e * k2;
    assert x == e * (k2 * k1);
    MulMod(e, k2 * k1);
  }

  // ---------------------------------------------------------------------------
  // A prime above every number (Euclid)
  // ---------------------------------------------------------------------------

  function Fact(n: nat): (f: nat)
    ensures f >= 1
  {
    if n == 0 then 1 else n * Fact(n - 1)
  }

  lemma {:induction false} FactDivisible(n: nat, p: int)
    requires 1 <= p <= n
    ensures Fact(n) % p == 0
  {
    if p == n {
      MulMod(n, Fact(n - 1));
    } else {
      FactDivisible(n - 1, p);
      var k := Fact(n - 1) / p;
      assert Fact(n - 1) == p * k;
      assert Fact(n) == p * (n * k);
      MulMod(p, n * k);
    }
  }

  /** The least divisor of `x` from `d` on. */
  ghost function MinFactor(x: int, d: int): (r: int)
    requires 2 <= d <= x
    requires forall e :: 2 <= e < d ==> x % e != 0
    ensures d <= r <= x && x % r == 0
    ensures forall e :: 2 <= e < r ==> x % e != 0
    decreases x - d
  {
    if x % d == 0 then d else MinFactor(x, d + 1)
  }

  lemma MinFactorPrime(x: int)
    requires x >= 2
    ensures IsPrime(MinFactor(x, 2))
  {
    var r := MinFactor(x, 2);
    forall e | 2 <= e < r ensures r % e != 0 {
      if r % e == 0 {
        DividesTrans(x, r, e);
      }
    }
  }

  /** The least prime factor of `n! + 1`. */
  ghost function EuclidPrime(n: nat): int
  {
    MinFactor(Fact(n) + 1, 2)
  }

  lemma EuclidPrimeAbove(n: nat)
    ensures IsPrime(EuclidPrime(n)) && n < EuclidPrime(n)
  {
    var p := EuclidPrime(n);
    MinFactorPrime(Fact(n) + 1);
    if p <= n {
      FactDivisible(n, p);
      var k := Fact(n) / p;
      assert Fact(n) == p * k;
      ShiftMod(p, k, 1);
      DivModUnique(1, p, 0, 1);
    }
  }

  // ---------------------------------------------------------------------------
  // Probing with a step below a prime modulus
  // ---------------------------------------------------------------------------

  /** A prime divides no product of two numbers strictly between 0 and itself. */
  lemma {:induction false} NoZeroDivisors(p: int, a: int, b: int)
    requires IsPrime(p) && 0 < a < p && 0 < b < p
    ensures (a * b) % p != 0
    decreases b
  {
    if b == 1 {
      DivModUnique(a, p, 0, a);
    } else if (a * b) % p == 0 {
      var q, r := p / b, p % b;
      assert p == b * q + r;
      assert r != 0;
      var k := (a * b) / p;
      assert a * b == p * k;
      assert a * r == a * p - (a * b) * q;
      assert a * r == p * (a - k * q);
      MulMod(p, a - k * q);
      NoZeroDivisors(p, a, r);
    }
  }

  /** Two different offsets below a prime modulus land on different slots. */
  lemma OffsetsDistinct(p: int, j: int, s: int, t1: int, t2: int)
    requires IsPrime(p) && 0 < s < p && 0 <= t1 < t2 < p
    ensures (j + t1 * s) % p != (j + t2 * s) % p
  {
    var x := j + t1 * s;
    var y := j + t2 * s;
    if x % p == y % p {
      assert y == x + (t2 - t1) * s;
      assert x == p * (x / p) + x % p;
      assert y == p * (y / p) + y % p;
      assert (t2 - t1) * s == p * (y / p - x / p);
      MulMod(p, y / p - x / p);
      NoZeroDivisors(p, t2 - t1, s);
    }
  }
}
