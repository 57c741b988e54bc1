/**
 The mathematics the prime search of src/util/arithmetic.h rests on: divisibility,
 Euclid's lemma, Fermat's little theorem and the infinitude of the primes.
 */
module NumberTheory {

  predicate Divides(d: int, n: int)
    requires d > 0
  {
    n % d == 0
  }

  ghost predicate Prime(p: int) {
    p >= 2 && forall m :: 2 <= m < p ==> !Divides(m, p)
  }

  function Pow(b: int, e: nat): int {
    if e == 0 then 1 else b * Pow(b, e - 1)
  }

  /* ---------- Quotients and remainders ---------- */

  /** The quotient and remainder of a division are unique. */
  lemma {:induction false} DivModUnique(n: int, m: int, q: int, r: int)
    requires m > 0 && 0 <= r < m && n == q * m + r
    ensures n % m == r && n / m == q
  {
    SmallMultiple(m, n / m - q);
  }

  lemma {:induction false} SmallMultiple(m: int, d: int)
    requires m > 0 && -m < m * d < m
    ensures d == 0
  {
  }

  lemma {:induction false} MulMonotonic(x: int, bound: int, y: nat)
    requires x <= bound
    ensures x * y <= bound * y
  {
  }

  lemma {:induction false} DividesIntro(d: int, n: int, k: int)
    requires d > 0 && n == d * k
    ensures Divides(d, n)
  {
    DivModUnique(n, d, k, 0);
  }

  lemma {:induction false} DividesMultiple(d: int, n: int, k: int)
    requires d > 0 && Divides(d, n)
    ensures Divides(d, n * k) && Divides(d, k * n)
  {
    assert n * k == d * (n / d * k);
    DividesIntro(d, n * k, n / d * k);
  }

  lemma {:induction false} DividesSum(d: int, x: int, y: int)
    requires d > 0 && Divides(d, x) && Divides(d, y)
    ensures Divides(d, x + y) && Divides(d, x - y)
  {
    DividesIntro(d, x + y, x / d + y / d);
    DividesIntro(d, x - y, x / d - y / d);
  }

  lemma {:induction false} DividesTransitive(c: int, d: int, n: int)
    requires c > 0 && d > 0 && Divides(c, d) && Divides(d, n)
    ensures Divides(c, n)
  {
    var k := n / d;
    assert n == d * k;
    DividesMultiple(c, d, k);
  }

  /** Equal remainders and a divisible difference are the same thing. */
  lemma {:induction false} SameRemainder(x: int, y: int, m: int)
    requires m > 0
    ensures x % m == y % m <==> Divides(m, x - y)
  {
    if x % m == y % m {
      assert x - y == m * (x / m - y / m);
      DividesIntro(m, x - y, x / m - y / m);
    }
    if Divides(m, x - y) {
      var k := (x - y) / m;
      assert x == (k + y / m) * m + y % m;
      DivModUnique(x, m, k + y / m, y % m);
    }
  }

  /** Reducing a factor modulo m does not change the product modulo m. */
  lemma {:induction false} ModMul(x: int, y: int, m: int)
    requires m > 0
    ensures (x % m * y) % m == (x * y) % m
  {
    assert x * y - x % m * y == m * (x / m * y);
    DividesIntro(m, x * y - x % m * y, x / m * y);
    SameRemainder(x * y, x % m * y, m);
  }

  /* ---------- Powers ---------- */

  lemma {:induction false} PowAdd(b: int, e: nat, f: nat)
    ensures Pow(b, e + f) == Pow(b, e) * Pow(b, f)
  {
    if e != 0 {
      PowAdd(b, e - 1, f);
    }
  }

  /** Squaring the base halves the exponent. */
  lemma {:induction false} PowSquare(b: int, e: nat)
    ensures Pow(b * b, e) == Pow(b, 2 * e)
  {
    if e != 0 {
      PowSquare(b, e - 1);
      assert Pow(b, 2 * e) == b * (b * Pow(b, 2 * (e - 1)));
      assert Pow(b * b, e) == (b * b) * Pow(b * b, e - 1);
    }
  }

  /** Reducing the base modulo m does not change a power modulo m. */
  lemma {:induction false} PowMod(b: int, e: nat, m: int)
    requires m > 0
    ensures Pow(b % m, e) % m == Pow(b, e) % m
  {
    if e != 0 {
      var u, v := Pow(b % m, e - 1), Pow(b, e - 1);
      PowMod(b, e - 1, m);
      ModMul(b, u, m);
      ModMul(u, b, m);
      ModMul(v, b, m);
      assert b * u == u * b && b * v == v * b;
    }
  }

  lemma {:induction false} PowNegative(b: int, e: nat)
    ensures Pow(-b, e) == if e % 2 == 0 then Pow(b, e) else -Pow(b, e)
  {
    if e > 0 {
      PowNegative(b, e - 1);
      assert (-b) * -Pow(b, e - 1) == b * Pow(b, e - 1);
    }
  }

  lemma {:induction false} PowOne(e: nat)
    ensures Pow(1, e) == 1
  {
    if e > 0 {
      PowOne(e - 1);
    }
  }

  lemma {:induction false} DividesPow(d: int, b: int, e: nat)
    requires d > 0 && Divides(d, b) && e > 0
    ensures Divides(d, Pow(b, e))
  {
    DividesMultiple(d, b, Pow(b, e - 1));
  }

  /* ---------- Euclid's lemma ---------- */

  /** A prime that divides a product divides one of the factors. */
  lemma {:induction false} EuclidLemma(p: int, a: int, b: int)
    requires Prime(p) && Divides(p, a * b) && !Divides(p, a)
    ensures Divides(p, b)
    decreases if 0 < a < p then a else p
  {
    if 0 < a < p {
      if a != 1 {
        // p == q * a + r with 0 < r < a, and r * b is again a multiple of p.
        var q, r := p / a, p % a;
        assert !Divides(a, p);
        assert r * b == p * b - q * (a * b);
        DividesIntro(p, p * b, b);
        DividesMultiple(p, a * b, q);
        DividesSum(p, p * b, q * (a * b));
        assert r % p == r by { DivModUnique(r, p, 0, r); }
        EuclidLemma(p, r, b);
      }
    } else {
      EuclidReduce(p, a, b);
      EuclidLemma(p, a % p, b);
    }
  }

  lemma {:induction false} EuclidReduce(p: int, a: int, b: int)
    requires p > 0 && Divides(p, a * b) && !Divides(p, a)
    ensures 0 < a % p < p && Divides(p, a % p * b) && !Divides(p, a % p)
  {
    ModMul(a, b, p);
    DivModUnique(a % p, p, 0, a % p);
  }

  /* ---------- Fermat's little theorem, by the binomial theorem ---------- */

  function Choose(n: nat, k: nat): nat {
    if k == 0 then 1 else if n == 0 then 0 else Choose(n - 1, k - 1) + Choose(n - 1, k)
  }

  lemma {:induction false} ChooseEdge(n: nat, k: nat)
    requires k >= n
    ensures Choose(n, k) == if k == n then 1 else 0
  {
    if n > 0 {
      ChooseEdge(n - 1, k - 1);
      ChooseEdge(n - 1, k);
    }
  }

  /** Absorption: k * C(n, k) == n * C(n - 1, k - 1). */
  lemma {:induction false} ChooseAbsorb(n: nat, k: nat)
    requires n > 0 && k > 0
    ensures k * Choose(n, k) == n * Choose(n - 1, k - 1)
  {
    if n == 1 {
      ChooseEdge(1, k);
      ChooseEdge(0, k - 1);
    } else {
      ChooseAbsorb(n - 1, k);
      if k > 1 {
        ChooseAbsorb(n - 1, k - 1);
        AbsorbSum(n, k, Choose(n - 2, k - 2), Choose(n - 2, k - 1), Choose(n - 1, k));
      }
    }
  }

  lemma {:induction false} AbsorbSum(n: int, k: int, a: int, b: int, c: int)
    requires (k - 1) * (a + b) == (n - 1) * a && k * c == (n - 1) * b
    ensures k * (a + b + c) == n * (a + b)
  {
  }

  /** f(0) + ... + f(m). */
  function Sum(f: nat -> int, m: nat): int {
    f(m) + if m == 0 then 0 else Sum(f, m - 1)
  }

  lemma {:induction false} SumStep(h: nat -> int, f: nat -> int, g: nat -> int, a: int, m: nat)
    requires h(0) == g(0)
    requires forall i: nat {:trigger h(i)} :: i > 0 ==> h(i) == a * f(i - 1) + g(i)
    ensures Sum(h, m + 1) == a * Sum(f, m) + Sum(g, m + 1)
  {
    if m > 0 {
      SumStep(h, f, g, a, m - 1);
      assert a * Sum(f, m) == a * f(m) + a * Sum(f, m - 1);
    }
    assert h(m + 1) == a * f(m) + g(m + 1);
  }

  function BinomialTerm(n: nat, k: nat, a: int): int {
    Choose(n, k) * Pow(a, k)
  }

  function Binomial(n: nat, a: int): nat -> int {
    (k: nat) => BinomialTerm(n, k, a)
  }

  lemma {:induction false} BinomialTermStep(n: nat, k: nat, a: int)
    ensures BinomialTerm(n + 1, k + 1, a) == a * BinomialTerm(n, k, a) + BinomialTerm(n, k + 1, a)
  {
  }

  lemma {:induction false} BinomialStep(n: nat, m: nat, a: int)
    ensures Sum(Binomial(n + 1, a), m + 1) == a * Sum(Binomial(n, a), m) + Sum(Binomial(n, a), m + 1)
  {
    forall k: nat | k > 0
      ensures Binomial(n + 1, a)(k) == a * Binomial(n, a)(k - 1) + Binomial(n, a)(k)
    {
      BinomialTermStep(n, k - 1, a);
    }
    SumStep(Binomial(n + 1, a), Binomial(n, a), Binomial(n, a), a, m);
  }

  lemma {:induction false} BinomialGrows(n: nat, a: int, s: int)
    requires s == Sum(Binomial(n, a), n)
    ensures Sum(Binomial(n + 1, a), n + 1) == (a + 1) * s
  {
    BinomialStep(n, n, a);
    BeyondTop(n, a);
  }

  lemma {:induction false} BinomialTheorem(n: nat, a: int)
    ensures Sum(Binomial(n, a), n) == Pow(a + 1, n)
  {
    if n == 0 {
      assert Binomial(0, a)(0) == 1;
    } else {
      BinomialTheorem(n - 1, a);
      BinomialGrows(n - 1, a, Sum(Binomial(n - 1, a), n - 1));
    }
  }

  lemma {:induction false} BeyondTop(n: nat, a: int)
    ensures Binomial(n, a)(n + 1) == 0
  {
    ChooseEdge(n, n + 1);
  }

  /** Modulo a prime p, the inner coefficients of (a + 1)^p vanish. */
  lemma {:induction false} InnerTermVanishes(p: int, k: nat, a: int)
    requires Prime(p) && 0 < k < p
    ensures Divides(p, BinomialTerm(p, k, a))
  {
    ChooseAbsorb(p, k);
    DividesIntro(p, k * Choose(p, k), Choose(p - 1, k - 1));
    DivModUnique(k, p, 0, k);
    EuclidLemma(p, k, Choose(p, k));
    DividesMultiple(p, Choose(p, k), Pow(a, k));
  }

  ghost predicate InnerMultiples(f: nat -> int, d: int, m: nat)
    requires d > 0
  {
    forall k :: 0 < k <= m ==> Divides(d, f(k))
  }

  lemma {:induction false} SumOfMultiples(f: nat -> int, d: int, m: nat, s: int)
    requires d > 0 && InnerMultiples(f, d, m) && s == Sum(f, m)
    ensures Divides(d, s - f(0))
  {
    if m == 0 {
      DividesIntro(d, 0, 0);
    } else {
      SumOfMultiples(f, d, m - 1, Sum(f, m - 1));
      DividesSum(d, f(m), Sum(f, m - 1) - f(0));
    }
  }

  lemma {:induction false} BinomialInner(p: int, a: int)
    requires Prime(p)
    ensures InnerMultiples(Binomial(p, a), p, p - 1)
  {
    forall k: nat | 0 < k <= p - 1 ensures Divides(p, Binomial(p, a)(k)) {
      InnerTermVanishes(p, k, a);
    }
  }

  /** (a + 1)^p and a^p + 1 agree modulo a prime p. */
  lemma {:induction false} FreshmanDream(p: int, a: int, u: int, v: int)
    requires Prime(p) && u == Pow(a + 1, p) && v == Pow(a, p)
    ensures Divides(p, u - v - 1)
  {
    ExpansionBelowTop(p, a);
    BinomialInner(p, a);
    FirstTerm(p, a);
    SumOfMultiples(Binomial(p, a), p, p - 1, u - v);
  }

  lemma {:induction false} FirstTerm(n: nat, a: int)
    ensures Binomial(n, a)(0) == 1
  {
  }

  lemma {:induction false} ExpansionBelowTop(n: nat, a: int)
    requires n > 0
    ensures Sum(Binomial(n, a), n - 1) == Pow(a + 1, n) - Pow(a, n)
  {
    BinomialTheorem(n, a);
    TopTerm(n, a);
  }

  lemma {:induction false} TopTerm(n: nat, a: int)
    ensures Binomial(n, a)(n) == Pow(a, n)
  {
    ChooseEdge(n, n);
  }

  lemma {:induction false} FermatAllBases(p: int, a: nat, u: int)
    requires Prime(p) && u == Pow(a, p)
    ensures Divides(p, u - a)
    decreases a
  {
    if a == 0 {
      DividesIntro(p, 0, 0);
    } else {
      var v := Pow(a - 1, p);
      FermatAllBases(p, a - 1, v);
      FreshmanDream(p, a - 1, u, v);
      DividesSum(p, u - v - 1, v - (a - 1));
    }
  }

  /** Fermat's little theorem. */
  lemma {:induction false} FermatLittle(p: int, a: nat)
    requires Prime(p) && !Divides(p, a)
    ensures Pow(a, p - 1) % p == 1
  {
    var w := Pow(a, p - 1);
    FermatAllBases(p, a, a * w);
    assert a * w - a == a * (w - 1);
    EuclidLemma(p, a, w - 1);
    SameRemainder(w, 1, p);
    DivModUnique(1, p, 0, 1);
  }

  /* ---------- There is a prime above every number ---------- */

  lemma {:induction false} PrimeFactor(n: int) returns (p: int)
    requires n >= 2
    ensures Prime(p) && p <= n && Divides(p, n)
  {
    if Prime(n) {
      DividesIntro(n, n, 1);
      p := n;
    } else {
      var d :| 2 <= d < n && Divides(d, n);
      p := PrimeFactor(d);
      DividesTransitive(p, d, n);
    }
  }

  function Factorial(n: nat): nat {
    if n == 0 then 1 else n * Factorial(n - 1)
  }

  lemma {:induction false} FactorialProperty(n: nat, d: nat)
    requires 1 <= d
    ensures Factorial(n) >= 1
    ensures d <= n ==> Divides(d, Factorial(n))
  {
    if n > 0 {
      FactorialProperty(n - 1, d);
      if d == n {
        DividesIntro(n, Factorial(n), Factorial(n - 1));
      } else if d < n {
        DividesMultiple(d, Factorial(n - 1), n);
      }
    }
  }

  /** Euclid: the primes are unbounded. */
  lemma {:induction false} PrimeAbove(n: nat) returns (p: int)
    ensures Prime(p) && p > n
  {
    FactorialProperty(n, 1);
    p := PrimeFactor(Factorial(n) + 1);
    if p <= n {
      FactorialProperty(n, p);
      DividesSum(p, Factorial(n) + 1, Factorial(n));
      DivModUnique(1, p, 0, 1);
      assert false;
    }
  }
}
