/** Primes, as far as the table size needs them: what a prime is, why a
    prime modulus makes every probe step reach every slot, and that there is
    always a prime at or above any bound (Euclid). */
module Primes {

  predicate IsPrime(n: int)
  {
    n >= 2 && forall d :: 2 <= d < n ==> n % d != 0
  }

  /** The only multiple of `m` strictly between `-m` and `m` is `0`. */
  lemma MulBounded(m: int, d: int)
    requires m > 0 && -m < m * d < m
    ensures d == 0
  {
  }

  /** Quotient and remainder are unique: `x == m * q + r` with `0 <= r < m`
      makes `r` the remainder. */
  lemma ModUnique(x: int, m: int, q: int, r: int)
    requires m > 0 && x == m * q + r && 0 <= r < m
    ensures x % m == r
  {
    assert x == m * (x / m) + x % m;
    assert m * (q - x / m) == x % m - r;
    MulBounded(m, q - x / m);
  }

  /** Adding a multiple of `m` does not change the remainder modulo `m`. */
  lemma ModAddMultiple(a: int, m: int, c: int)
    requires m > 0
    ensures (m * c + a) % m == a % m
  {
    var q := a / m;
    assert a == m * q + a % m;
    assert m * c + a == m * (c + q) + a % m;
    ModUnique(m * c + a, m, c + q, a % m);
  }

  /** A multiple of `m` is `0` modulo `m`. */
  lemma MulMod(m: int, c: int)
    requires m > 0
    ensures (m * c) % m == 0
  {
    ModUnique(m * c, m, c, 0);
  }

  /** `x % m == y % m` means `m` divides `x - y`. */
  lemma ModEqualDiff(x: int, y: int, m: int)
    requires m > 0 && x % m == y % m
    ensures (x - y) % m == 0
  {
    var c := x / m - y / m;
    assert x - y == m * c;
    MulMod(m, c);
  }

  /** If `p` divides `a * b` and `p == q * a + r`, it divides `r * b`. */
  lemma DividesRemainder(p: int, a: int, b: int, q: int, r: int)
    requires p > 0 && p == q * a + r && (a * b) % p == 0
    ensures (r * b) % p == 0
  {
    var c := (a * b) / p;
    assert a * b == p * c;
    assert r * b == p * b - q * (a * b) by {
      assert r * b == (p - q * a) * b;
    }
    assert r * b == p * (b - q * c);
    MulMod(p, b - q * c);
  }

  /** A prime divides no product of two numbers between `0` and itself: the
      heart of why a prime table size lets double hashing reach every slot.
      By induction on `a`, replacing `a` with `p % a`. */
  lemma {:induction false} PrimeNotDividesProduct(p: int, a: int, b: int)
    requires IsPrime(p) && 0 < a < p && 0 < b < p
    ensures (a * b) % p != 0
    decreases a
  {
    if a > 1 {
      var q, r := p / a, p % a;
      assert p % a != 0;
      PrimeNotDividesProduct(p, r, b);
      if (a * b) % p == 0 {
        DividesRemainder(p, a, b, q, r);
      }
    }
  }

  function Factorial(n: nat): (f: nat)
    ensures f >= 1
  {
    if n == 0 then 1 else n * Factorial(n - 1)
  }

  /** Every `d` from `1` to `n` divides `n!`. */
  lemma {:induction false} FactorialDivisible(n: nat, d: int)
    requires 1 <= d <= n
    ensures Factorial(n) % d == 0
  {
    if d == n {
      assert Factorial(n) == d * Factorial(n - 1);
      MulMod(d, Factorial(n - 1));
    } else {
      FactorialDivisible(n - 1, d);
      var c := Factorial(n - 1) / d;
      assert Factorial(n - 1) == d * c;
      assert Factorial(n) == d * (n * c);
      MulMod(d, n * c);
    }
  }

  /** The least divisor of `n` from `d` on. */
  function LeastDivisorFrom(n: int, d: int): (r: int)
    requires 2 <= d <= n
    ensures d <= r <= n && n % r == 0
    ensures forall e :: d <= e < r ==> n % e != 0
    decreases n - d
  {
    if n % d == 0 then d else LeastDivisorFrom(n, d + 1)
  }

  /** A divisor of a divisor of `n` divides `n`. */
  lemma DividesTrans(n: int, r: int, e: int)
    requires r > 0 && e > 0 && n % r == 0 && r % e == 0
    ensures n % e == 0
  {
    var a, b := n / r, r / e;
    assert n == r * a && r == e * b;
    assert n == e * (b * a);
    MulMod(e, b * a);
  }

  /** The least divisor of `n` above 1 is a prime. */
  lemma LeastDivisorPrime(n: int)
    requires n >= 2
    ensures IsPrime(LeastDivisorFrom(n, 2))
  {
    var r := LeastDivisorFrom(n, 2);
    forall e | 2 <= e < r
      ensures r % e != 0
    {
      if r % e == 0 {
        DividesTrans(n, r, e);
      }
    }
  }

  /** `n! + 1` leaves remainder 1 when divided by any `d` from 2 to `n`. */
  lemma FactorialSuccessor(n: nat, d: int)
    requires 2 <= d <= n
    ensures (Factorial(n) + 1) % d == 1
  {
    FactorialDivisible(n, d);
    var c := Factorial(n) / d;
    assert Factorial(n) == d * c;
    ModUnique(Factorial(n) + 1, d, c, 1);
  }

  /** Euclid: a prime above any bound `n`, namely the least divisor above 1
      of `n! + 1`, which no number from 2 to `n` divides. */
  ghost function PrimeAbove(n: nat): (p: int)
    ensures IsPrime(p) && p > n
  {
    LeastDivisorPrime(Factorial(n) + 1);
    var p := LeastDivisorFrom(Factorial(n) + 1, 2);
    if p <= n then
      FactorialSuccessor(n, p);
      p
    else
      p
  }

  /** The least prime from `n` on, given a prime `b` at or above `n`. */
  ghost function NextPrimeUpTo(n: int, b: int): (p: int)
    requires IsPrime(b) && n <= b
    ensures IsPrime(p) && n <= p <= b
    ensures forall r :: n <= r < p ==> !IsPrime(r)
    decreases b - n
  {
    if IsPrime(n) then n else NextPrimeUpTo(n + 1, b)
  }

  /** The least prime at or above `n`. */
  ghost function NextPrime(n: int): (p: int)
    ensures IsPrime(p) && p >= n
    ensures forall r :: n <= r < p ==> !IsPrime(r)
  {
    NextPrimeUpTo(n, PrimeAbove(if n < 0 then 0 else n))
  }
}
