/** Prime tables: trial division, a sieve and a hybrid of the two. */
module Primes {

  // ----- Divisibility -----

  predicate Divides(d: int, n: int)
    requires d >= 1
  {
    n % d == 0
  }

  /** n has no divisor strictly between 1 and itself. */
  ghost predicate Prime(n: int) {
    n >= 2 && forall d | 2 <= d < n :: !Divides(d, n)
  }

  ghost predicate HasDivisorBelow(n: int, bound: int) {
    exists d | 2 <= d < bound && d < n :: Divides(d, n)
  }

  lemma QuotientOf(d: int, n: int) returns (q: int)
    requires d >= 1 && Divides(d, n)
    ensures n == d * q
  {
    q := n / d;
  }

  lemma ProductDivides(d: int, q: int)
    requires d >= 1
    ensures Divides(d, d * q)
  {
    ModMultiple(d, q, 0);
  }

  lemma MulMono(a: int, b: int, c: int)
    requires a >= 0
    ensures b <= c ==> a * b <= a * c
  {
  }

  lemma ModMultiple(d: int, q: int, r: int)
    requires 0 <= r < d
    ensures (d * q + r) % d == r
  {
    var n := d * q + r;
    var k := q - n / d;
    assert n == d * (n / d) + n % d;
    assert d * k == n % d - r;
    MulMono(d, 1, k);
    MulMono(d, k, -1);
  }

  lemma DividesTransitive(a: int, b: int, n: int)
    requires a >= 1 && b >= 1 && Divides(a, b) && Divides(b, n)
    ensures Divides(a, n)
  {
    var p := QuotientOf(a, b);
    var q := QuotientOf(b, n);
    assert n == a * (p * q);
    ProductDivides(a, p * q);
  }

  /** A composite number has a divisor no greater than its square root. */
  lemma SmallDivisor(n: int, d: int) returns (e: int)
    requires 2 <= d < n && Divides(d, n)
    ensures 2 <= e < n && Divides(e, n) && e * e <= n
  {
    var q := QuotientOf(d, n);
    MulMono(d, q, 1);
    MulMono(q, 2, d);
    assert q * d == n;
    if d <= q {
      e := d;
      MulMono(d, d, q);
    } else {
      e := q;
      ProductDivides(q, d);
      MulMono(q, q, d);
    }
  }

  lemma TrialDivisionSuffices(n: int, bound: int)
    requires n >= 2 && bound >= 2 && bound * bound > n
    requires forall d | 2 <= d < bound && d < n :: !Divides(d, n)
    ensures Prime(n)
  {
    forall d | 2 <= d < n ensures !Divides(d, n) {
      if Divides(d, n) {
        var e := SmallDivisor(n, d);
        MulMono(e, bound, e);
        MulMono(bound, bound, e);
      }
    }
  }

  // ----- Euclid: there is always a next prime -----

  function FactorialOf(n: int): (f: int)
    ensures f >= 1
  {
    if n <= 0 then 1 else FactorialOf(n - 1) * n
  }

  function UpTo(n: nat): (ns: seq<nat>)
    ensures |ns| == n && forall k | 0 <= k < n :: ns[k] == k + 1
  {
    seq(n, k requires 0 <= k < n => k + 1)
  }

  function Product(ns: seq<nat>): nat {
    if ns == [] then 1 else ns[0] * Product(ns[1..])
  }

  lemma {:induction false} ProductPush(ns: seq<nat>, n: nat)
    ensures Product(ns + [n]) == Product(ns) * n
  {
    var all := ns + [n];
    if ns == [] {
      assert all[1..] == [];
    } else {
      ProductPush(ns[1..], n);
      assert all[1..] == ns[1..] + [n];
      assert ns[0] * (Product(ns[1..]) * n) == ns[0] * Product(ns[1..]) * n;
    }
  }

  /** The factorial is the product of the numbers from 1 to n, and 1 when there is none. */
  lemma {:induction false} FactorialIsProduct(n: int)
    ensures FactorialOf(n) == if n < 1 then 1 else Product(UpTo(n))
    decreases n
  {
    if n >= 1 {
      FactorialIsProduct(n - 1);
      assert UpTo(n) == UpTo(n - 1) + [n];
      ProductPush(UpTo(n - 1), n);
    }
  }

  method Factorial(n: int) returns (result: int)
    ensures result == FactorialOf(n)
    ensures result == if n < 1 then 1 else Product(UpTo(n))
  {
    FactorialIsProduct(n);
    result := 1;
    var i := 1;
    while i <= n
      invariant n >= 1 ==> 1 <= i <= n + 1
      invariant result == FactorialOf(if n >= 1 then i - 1 else n)
    {
      result := result * i;
      i := i + 1;
    }
  }

  lemma {:induction false} FactorialDivisible(d: int, n: int)
    requires 1 <= d <= n
    ensures Divides(d, FactorialOf(n))
  {
    var rest := FactorialOf(n - 1);
    assert FactorialOf(n) == rest * n == n * rest;
    if d == n {
      ProductDivides(n, rest);
    } else {
      FactorialDivisible(d, n - 1);
      ProductDivides(rest, n);
      DividesTransitive(d, rest, FactorialOf(n));
    }
  }

  lemma {:induction false} PrimeDivisor(n: int) returns (p: int)
    requires n >= 2
    ensures Prime(p) && p <= n && Divides(p, n)
    decreases n
  {
    if Prime(n) {
      p := n;
      assert n == n * 1;
      ProductDivides(n, 1);
    } else {
      var d :| 2 <= d < n && Divides(d, n);
      p := PrimeDivisor(d);
      DividesTransitive(p, d, n);
    }
  }

  /** Euclid's theorem, with the bound the search for a next prime needs. */
  lemma PrimeAbove(p: int) returns (q: int)
    requires p >= 0
    ensures p < q <= FactorialOf(p) + 1 && Prime(q)
  {
    var f := FactorialOf(p);
    q := PrimeDivisor(f + 1);
    if q <= p {
      FactorialDivisible(q, p);
      var k := QuotientOf(q, f);
      ModMultiple(q, k, 1);
    }
  }

  /** q is the least prime above p. */
  ghost predicate IsNextPrime(q: int, p: int) {
    p < q && Prime(q) && forall n | p < n < q :: !Prime(n)
  }

  lemma NextPrimeUnique(p: int, q: int, q': int)
    requires IsNextPrime(q, p) && IsNextPrime(q', p)
    ensures q == q'
  {
  }

  // ----- Trial division -----

  /** Tests every odd divisor up to the square root. */
  method IsPrime(n: int) returns (prime: bool)
    ensures prime <==> Prime(n)
  {
    if n <= 1 {
      return false;
    }
    if n % 2 == 0 {
      assert Divides(2, n);
      assert n == 2 ==> Prime(n);
      return n == 2;
    }
    var i := 3;
    while true
      invariant 3 <= i && i % 2 == 1 && i <= n + 2
      invariant forall d | 2 <= d < i && d < n :: !Divides(d, n)
      decreases n + 2 - i
    {
      if i > n / i {
        OverSquareRoot(n, i);
        TrialDivisionSuffices(n, i);
        return true;
      }
      UnderSquareRoot(n, i);
      if n % i == 0 {
        assert Divides(i, n);
        return false;
      }
      EvenIsNoDivisor(i + 1, n);
      i := i + 2;
    }
  }

  /** An even number divides no odd one. */
  lemma EvenIsNoDivisor(d: int, n: int)
    requires d >= 2 && d % 2 == 0 && n % 2 == 1
    ensures !Divides(d, n)
  {
    if Divides(d, n) {
      DividesTransitive(2, d, n);
    }
  }

  lemma OverSquareRoot(n: int, i: int)
    requires n >= 0 && i >= 1 && i > n / i
    ensures i * i > n
  {
    assert n == i * (n / i) + n % i;
    assert i * (n / i + 1) == i * (n / i) + i;
    MulMono(i, n / i + 1, i);
  }

  lemma UnderSquareRoot(n: int, i: int)
    requires n >= 0 && i >= 2 && i <= n / i
    ensures i < n
  {
    assert n >= i * (n / i) >= i * i >= 2 * i;
  }

  class OnTheFlyPrimeTable {
    constructor () {}

    method IsPrime(n: int) returns (prime: bool)
      ensures prime <==> Prime(n)
    {
      if n <= 1 {
        return false;
      }
      var i := 2;
      while i * i <= n
        invariant 2 <= i <= n + 1
        invariant forall d | 2 <= d < i && d < n :: !Divides(d, n)
        decreases n + 1 - i
      {
        assert 2 * i <= i * i;
        if n % i == 0 {
          assert Divides(i, n);
          return false;
        }
        assert !Divides(i, n);
        i := i + 1;
      }
      TrialDivisionSuffices(n, i);
      return true;
    }

    /** The least prime above p; a negative p starts the counter outside its range. */
    method GetNextPrime(p: int) returns (q: int)
      ensures p >= 0 ==> IsNextPrime(q, p)
      ensures p < 0 ==> q == -1
    {
      if p >= 0 {
        ghost var next := PrimeAbove(p);
      }
      var n := p + 1;
      while n > 0
        invariant p >= 0 ==> n > p && forall k | p < k < n :: !Prime(k)
        invariant p < 0 ==> n == p + 1
        decreases FactorialOf(p) + 2 - n
      {
        var prime := IsPrime(n);
        if prime {
          return n;
        }
        n := n + 1;
      }
      return -1;
    }
  }

  // ----- The sieve -----

  class PreCalculatedPrimeTable {
    const max: int
    const isPrimeSize: int
    const isPrime: array<bool>

    ghost predicate Valid()
      reads isPrime
    {
      && isPrimeSize == max + 1 == isPrime.Length && max >= 1
      && forall n | 0 <= n <= max :: isPrime[n] <==> Prime(n)
    }

    constructor (max: int)
      requires max >= 1
      ensures Valid() && this.max == max
      ensures fresh(isPrime)
    {
      this.max := max;
      isPrimeSize := max + 1;
      isPrime := new bool[max + 1];
      new;
      CalculatePrimesUpTo();
    }

    method CalculatePrimesUpTo()
      requires isPrimeSize == max + 1 == isPrime.Length && max >= 1
      modifies isPrime
      ensures Valid()
    {
      for k := 0 to isPrimeSize
        invariant forall n | 0 <= n < k :: isPrime[n]
      {
        isPrime[k] := true;
      }
      isPrime[0], isPrime[1] := false, false;
      var i := 2;
      while i <= max
        invariant 2 <= i <= max + 1
        invariant !isPrime[0] && !isPrime[1]
        invariant forall n | 2 <= n <= max :: isPrime[n] <==> !HasDivisorBelow(n, i)
      {
        if isPrime[i] {
          MarkMultiples(i);
        } else {
          SkipComposite(i);
        }
        i := i + 1;
      }
      assert forall n | 2 <= n <= max :: HasDivisorBelow(n, max + 1) <==> !Prime(n);
    }

    /** Marks the multiples of i above i. */
    method MarkMultiples(i: int)
      requires isPrime.Length == max + 1 && 2 <= i <= max
      requires forall n | 2 <= n <= max :: isPrime[n] <==> !HasDivisorBelow(n, i)
      modifies isPrime
      ensures isPrime[0] == old(isPrime[0]) && isPrime[1] == old(isPrime[1])
      ensures forall n | 2 <= n <= max :: isPrime[n] <==> !HasDivisorBelow(n, i + 1)
    {
      var j := 2 * i;
      ghost var m := 2;
      while j <= max
        invariant j == m * i && m >= 2
        invariant isPrime[0] == old(isPrime[0]) && isPrime[1] == old(isPrime[1])
        invariant forall n | 2 <= n <= max ::
                    isPrime[n] <==> old(isPrime[n]) && !(i < n < j && Divides(i, n))
        decreases max + 1 - j
      {
        assert j == i * m;
        ProductDivides(i, m);
        NoMultipleBetween(i, m);
        isPrime[j] := false;
        j := j + i;
        m := m + 1;
      }
    }
  
    method IsPrime(n: int) returns (prime: bool)
      requires Valid()
      ensures prime <==> n <= max && Prime(n)
    {
      prime := 0 <= n < isPrimeSize && isPrime[n];
    }

    /** The least prime above p within the table, or -1. */
    method GetNextPrime(p: int) returns (q: int)
      requires Valid() && p >= -1
      ensures q != -1 ==> q <= max && IsNextPrime(q, p)
      ensures q == -1 <==> forall n | p < n <= max :: !Prime(n)
    {
      var n := p + 1;
      while n < isPrimeSize
        invariant p < n
        invariant forall k | p < k < n && k <= max :: !Prime(k)
      {
        if isPrime[n] {
          return n;
        }
        n := n + 1;
      }
      return -1;
    }
  }

  lemma NoMultipleBetween(i: int, m: int)
    requires i >= 2
    ensures forall n | m * i < n < m * i + i :: !Divides(i, n)
  {
    forall n | m * i < n < m * i + i ensures !Divides(i, n) {
      ModMultiple(i, m, n - m * i);
    }
  }

  /** A composite i adds no number to those with a smaller divisor. */
  lemma SkipComposite(i: int)
    requires i >= 2 && HasDivisorBelow(i, i)
    ensures forall n :: HasDivisorBelow(n, i) <==> HasDivisorBelow(n, i + 1)
  {
    var d :| 2 <= d < i && Divides(d, i);
    forall n | HasDivisorBelow(n, i + 1) ensures HasDivisorBelow(n, i) {
      if !HasDivisorBelow(n, i) {
        assert Divides(i, n);
        DividesTransitive(d, i, n);
      }
    }
  }

  // ----- The hybrid table -----

  class HybridPrimeTable {
    const onTheFly: OnTheFlyPrimeTable
    const precalc: PreCalculatedPrimeTable?
    const maxPrecalculated: int

    ghost predicate Valid()
      reads if precalc != null then {precalc.isPrime} else {}
    {
      precalc != null ==> precalc.Valid() && precalc.max == maxPrecalculated
    }

    constructor (forceOnTheFly: bool, maxPrecalculated: int)
      requires forceOnTheFly || maxPrecalculated >= 1
      ensures Valid() && this.maxPrecalculated == maxPrecalculated
      ensures precalc == null <==> forceOnTheFly
    {
      onTheFly := new OnTheFlyPrimeTable();
      if forceOnTheFly {
        precalc := null;
      } else {
        precalc := new PreCalculatedPrimeTable(maxPrecalculated);
      }
      this.maxPrecalculated := maxPrecalculated;
    }

    method IsPrime(n: int) returns (prime: bool)
      requires Valid()
      ensures prime <==> Prime(n)
    {
      if precalc != null && n < maxPrecalculated {
        prime := precalc.IsPrime(n);
      } else {
        prime := onTheFly.IsPrime(n);
      }
    }

    /** The least prime above p, whichever table answers; below 0 only the precalculated table finds
        one, and it reads outside its array below -1. */
    method GetNextPrime(p: int) returns (q: int)
      requires Valid() && (p >= -1 || precalc == null)
      ensures p >= 0 ==> IsNextPrime(q, p)
      ensures p < 0 ==> q == if precalc != null && maxPrecalculated >= 2 then 2 else -1
    {
      q := -1;
      assert Prime(2);
      if precalc != null && p < maxPrecalculated {
        q := precalc.GetNextPrime(p);
      }
      if q == -1 {
        q := onTheFly.GetNextPrime(p);
      }
    }
  }

  /** Whatever the construction, a hybrid table answers as plain trial division does, and so does
      the precalculated table as far as it reaches. */
  method TablesAgree(forceOnTheFly: bool, max: int, n: int, p: nat)
    returns (slow: bool, odd: bool, fast: bool, hybrid: bool, slowNext: int, fastNext: int, hybridNext: int)
    requires max >= 1
    ensures slow == odd == hybrid && (n <= max ==> fast == slow)
    ensures slowNext == hybridNext && fastNext == if slowNext <= max then slowNext else -1
  {
    var onTheFly := new OnTheFlyPrimeTable();
    var precalc := new PreCalculatedPrimeTable(max);
    var both := new HybridPrimeTable(forceOnTheFly, max);
    slow := onTheFly.IsPrime(n);
    odd := IsPrime(n);
    fast := precalc.IsPrime(n);
    hybrid := both.IsPrime(n);
    slowNext := onTheFly.GetNextPrime(p);
    fastNext := precalc.GetNextPrime(p);
    hybridNext := both.GetNextPrime(p);
    NextPrimeUnique(p, slowNext, hybridNext);
    if fastNext != -1 {
      NextPrimeUnique(p, slowNext, fastNext);
    }
  }
}
