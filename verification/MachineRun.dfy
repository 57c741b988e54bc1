/** The rounds of isPrime in src/util/arithmetic.h on 32-bit ints: when they overflow, and that they agree otherwise. */
module MachineRun {
  import opened CTypes
  import opened NumberTheory
  import opened PrimeSearch

  datatype Machine = Overflow | Value(p: nat)

  /**
   The square-and-multiply loop on C ints: a product above INT_MAX has no defined value.
   The shift of a negative exponent keeps it negative; the squares then grow until one overflows.
   */
  function MachineRound(val: nat, p: nat, a: nat, exp: int): Machine
    requires val > 0 && (exp < 0 ==> val > INT_MAX && a >= 2)
    decreases if exp < 0 then INT_MAX - a else exp
  {
    if exp == 0 then Value(p)
    else if (exp % 2 == 1 && p * a > INT_MAX) || a * a > INT_MAX then Overflow
    else
      SquareGrows(val, a);
      MachineRound(val, if exp % 2 == 1 then (p * a) % val else p, (a * a) % val, exp / 2)
  }

  lemma {:induction false} SquareGrows(val: nat, a: nat)
    requires a * a <= INT_MAX
    ensures a <= INT_MAX
    ensures val > INT_MAX && a >= 2 ==> (a * a) % val == a * a > a
  {
    if a >= 2 {
      MulMonotonic(2, a, a);
      if val > INT_MAX {
        DivModUnique(a * a, val, 0, a * a);
      }
    }
  }

  /** A round as isPrime starts it: the exponent is val - 1 converted to int. */
  function MachineTest(val: nat, r: nat): Machine
    requires val >= 1 && val != 4
  {
    MachineRound(val, 1, BaseOf(val, r), ToInt(val - 1))
  }

  /** A negative exponent overflows for every base. */
  lemma {:induction false} NegativeOverflows(val: nat, p: nat, a: nat, exp: int)
    requires val > INT_MAX && a >= 2 && exp < 0
    ensures MachineRound(val, p, a, exp) == Overflow
    decreases INT_MAX - a
  {
    if a * a <= INT_MAX {
      SquareGrows(val, a);
      if !(exp % 2 == 1 && p * a > INT_MAX) {
        NegativeOverflows(val, if exp % 2 == 1 then (p * a) % val else p, (a * a) % val, exp / 2);
      }
    }
  }

  /** No square leaves a remainder above the bound. */
  ghost predicate SquaresBelow(val: nat, bound: nat)
    requires val > 0
  {
    forall x: nat :: SquareMod(x, val) <= bound
  }

  function SquareMod(x: nat, val: nat): nat
    requires val > 0
  {
    (x * x) % val
  }

  /** A bound on all running squares under which no product overflows gives the mathematical power. */
  lemma {:induction false} MachineAgrees(val: nat, bound: nat, p: nat, a: nat, exp: nat)
    requires 2 <= val && p < val && a <= bound < val && (val - 1) * bound <= INT_MAX
    requires SquaresBelow(val, bound)
    ensures MachineRound(val, p, a, exp) == Value((p * Pow(a, exp)) % val)
    decreases exp
  {
    if exp == 0 {
      DivModUnique(p, val, 0, p);
    } else {
      ProductFits(val, bound, p, a);
      ProductFits(val, bound, a, a);
      var p' := if exp % 2 == 1 then (p * a) % val else p;
      SquareMultiplyStep(val, p, a, exp);
      assert SquareMod(a, val) <= bound;
      MachineAgrees(val, bound, p', (a * a) % val, exp / 2);
    }
  }

  lemma {:induction false} ProductFits(val: nat, bound: nat, x: nat, y: nat)
    requires x < val && y <= bound && (val - 1) * bound <= INT_MAX
    ensures x * y <= INT_MAX
  {
    MulMonotonic(x, val - 1, y);
    MulMonotonic(y, bound, val - 1);
  }

  /** Up to 46341 every remainder is small enough. */
  lemma {:induction false} SmallSquares(val: nat)
    requires 1 <= val <= 46341
    ensures (val - 1) * (val - 1) <= INT_MAX && SquaresBelow(val, val - 1)
  {
    MulMonotonic(val - 1, 46340, val - 1);
  }

  /* ---------- Quadratic residues ---------- */

  /** n is not divisible by k, k - 2 and so on down to 3 or 2. */
  predicate NoDivisorUpTo(n: int, k: nat) {
    k < 2 || (!Divides(k, n) && NoDivisorUpTo(n, k - 2))
  }

  lemma {:induction false} NoDivisorAt(n: int, k: nat, d: nat)
    requires n % 2 == 1 && k % 2 == 1 && NoDivisorUpTo(n, k) && 2 <= d <= k
    ensures !Divides(d, n)
  {
    if d % 2 == 0 {
      if Divides(d, n) {
        DividesTransitive(2, d, n);
      }
    } else if d < k {
      NoDivisorAt(n, k - 2, d);
    }
  }

  /** For an odd number, trial division by odd numbers up to the square root proves primality. */
  lemma {:induction false} TrialDivision(n: int, k: nat)
    requires n >= 2 && n % 2 == 1 && k % 2 == 1 && NoDivisorUpTo(n, k) && (k + 1) * (k + 1) > n
    ensures Prime(n)
  {
    forall d | 2 <= d < n ensures !Divides(d, n) {
      if d <= k {
        NoDivisorAt(n, k, d);
      } else if Divides(d, n) {
        var e := SmallCofactor(n, d, k);
        NoDivisorAt(n, k, e);
      }
    }
  }

  lemma {:induction false} SmallCofactor(n: int, d: int, k: nat) returns (e: nat)
    requires n >= 2 && k < d < n && Divides(d, n) && (k + 1) * (k + 1) > n
    ensures 2 <= e <= k && Divides(e, n)
  {
    var q := n / d;
    assert n == d * q;
    if q <= 1 {
      MulMonotonic(q, 1, d);
    }
    if k + 1 <= q {
      MulMonotonic(k + 1, q, d);
    }
    MulMonotonic(k + 1, d, k + 1);
    e := q;
    DividesIntro(q, n, d);
  }

  /** Euler: a square that p does not divide has (p - 1) / 2-th power 1. */
  lemma {:induction false} EulerCriterion(p: nat, x: nat, c: nat)
    requires Prime(p) && p % 2 == 1 && (x * x) % p == c && c != 0
    ensures Pow(c, (p - 1) / 2) % p == 1
  {
    if Divides(p, x) {
      DividesMultiple(p, x, x);
    }
    FermatLittle(p, x);
    PowSquare(x, (p - 1) / 2);
    PowMod(x * x, (p - 1) / 2, p);
  }

  /** c is no square modulo the prime p, by Euler's criterion. */
  ghost predicate NonResidue(p: nat, c: nat) {
    Prime(p) && p % 2 == 1 && 0 < c < p && Pow(c, (p - 1) / 2) % p != 1
  }

  /** A remainder modulo a multiple of d determines the remainder modulo d. */
  lemma {:induction false} ModMod(n: int, m: int, d: int)
    requires m > 0 && d > 0 && Divides(d, m)
    ensures n % m % d == n % d
  {
    DividesIntro(m, n - n % m, n / m);
    DividesTransitive(d, m, n - n % m);
    SameRemainder(n, n % m, d);
  }

  /** No square is c modulo m when c is no square modulo a factor p of m. */
  lemma {:induction false} NotASquare(m: nat, p: nat, c: nat, x: nat)
    requires m > 0 && p > 0 && Divides(p, m) && NonResidue(p, c % p)
    ensures SquareMod(x, m) != c
  {
    if SquareMod(x, m) == c {
      ModMod(x * x, m, p);
      EulerCriterion(p, x, c % p);
    }
  }

  /** With an odd exponent, -b to that power is not 1 modulo p when b to it is. */
  lemma {:induction false} NegatedPower(p: int, b: int, h: nat)
    requires p > 2 && h % 2 == 1 && 0 < b < p && Pow(b, h) % p == 1
    ensures Pow(p - b, h) % p != 1
  {
    PowNegative(b, h);
    DivModUnique(-b, p, -1, p - b);
    PowMod(-b, h, p);
    DivModUnique(-Pow(b, h), p, -(Pow(b, h) / p) - 1, p - 1);
  }

  /** -1 is no square modulo a prime that is 3 modulo 4. */
  lemma {:induction false} MinusOneNonResidue(p: nat)
    requires Prime(p) && p % 4 == 3
    ensures NonResidue(p, p - 1)
  {
    PowOne((p - 1) / 2);
    DivModUnique(1, p, 0, 1);
    NegatedPower(p, 1, (p - 1) / 2);
  }

  lemma {:induction false} NonResidue47(p: nat)
    requires p == 47
    ensures NonResidue(p, 46)
  {
    assert NoDivisorUpTo(47, 7);
    TrialDivision(p, 7);
    MinusOneNonResidue(p);
  }

  /** -1 and -3 are no squares modulo 11. */
  lemma {:induction false} NonResidues11(p: nat)
    requires p == 11
    ensures NonResidue(p, 10) && NonResidue(p, 8)
  {
    assert NoDivisorUpTo(11, 3);
    TrialDivision(p, 3);
    MinusOneNonResidue(p);
    assert Pow(8, 5) == 32768;
  }

  lemma {:induction false} DoubleAndAdd(q: nat, e: nat, r: nat) returns (e': nat, r': nat)
    requires q > 0 && Pow(2, e) % q == r
    ensures e' == 2 * e + 1 && r' == (2 * r * r) % q && Pow(2, e') % q == r'
  {
    e', r' := 2 * e + 1, (2 * r * r) % q;
    PowAdd(2, e, e);
    TwiceSquare(q, Pow(2, e), r);
    assert Pow(2, e') == 2 * Pow(2, 2 * e);
  }

  lemma {:induction false} TwiceSquare(q: nat, w: int, r: int)
    requires q > 0 && w % q == r
    ensures (2 * (w * w)) % q == (2 * r * r) % q
  {
    ModMul(w, w, q);
    ModMul(w, r, q);
    ModMul(w * w, 2, q);
    ModMul(r * r, 2, q);
    assert w * r == r * w && 2 * r * r == r * r * 2;
  }

  /** 2^191 is 1 modulo 383. */
  lemma {:induction false} PowerOfTwo383(q: nat) returns (e: nat)
    requires q == 383
    ensures e == 191 && Pow(2, e) % q == 1
  {
    var r := 32;
    e := 5;
    assert Pow(2, 5) == 32;
    e, r := DoubleAndAdd(q, e, r);
    assert r == 133;
    e, r := DoubleAndAdd(q, e, r);
    assert r == 142;
    e, r := DoubleAndAdd(q, e, r);
    assert r == 113;
    e, r := DoubleAndAdd(q, e, r);
    assert r == 260;
    e, r := DoubleAndAdd(q, e, r);
  }

  /** -2 is no square modulo 383. */
  lemma {:induction false} NonResidue383(p: nat)
    requires p == 383
    ensures NonResidue(p, 381)
  {
    assert NoDivisorUpTo(383, 19);
    TrialDivision(p, 19);
    var h := PowerOfTwo383(p);
    NegatedPower(p, 2, h);
  }

  /** 46342 = 2 * 17 * 29 * 47. */
  lemma {:induction false} Squares46342(val: nat)
    requires val == 46342
    ensures SquaresBelow(val, 46340)
  {
    NonResidue47(47);
    forall x: nat ensures SquareMod(x, val) <= 46340 {
      NotASquare(val, 47, 46341, x);
    }
  }

  /** 46343 = 11 * 11 * 383. */
  lemma {:induction false} Squares46343(val: nat)
    requires val == 46343
    ensures SquaresBelow(val, 46339)
  {
    forall x: nat ensures SquareMod(x, val) <= 46339 {
      NotModulo11(val, 46340, x);
      NotModulo11(val, 46342, x);
      Not46341(val, x);
    }
  }

  lemma {:induction false} NotModulo11(val: nat, c: nat, x: nat)
    requires val == 46343 && (c % 11 == 8 || c % 11 == 10)
    ensures SquareMod(x, val) != c
  {
    NonResidues11(11);
    assert Divides(11, val);
    NotASquare(val, 11, c, x);
  }

  lemma {:induction false} Not46341(val: nat, x: nat)
    requires val == 46343
    ensures SquareMod(x, val) != 46341
  {
    NonResidue383(383);
    NotASquare(val, 383, 46341, x);
  }

  /* ---------- The exact limit ---------- */

  /** At 46343 the first base may be 46340, but p is still 1 and later squares are smaller. */
  lemma {:induction false} First46343(val: nat, a: nat)
    requires val == 46343 && a <= 46340
    ensures MachineRound(val, 1, a, val - 1) == Value(Pow(a, val - 1) % val)
  {
    Squares46343(val);
    assert SquareMod(a, val) <= 46339;
    MulMonotonic(a, 46340, a);
    SquareMultiplyStep(val, 1, a, val - 1);
    MachineAgrees(val, 46339, 1, (a * a) % val, (val - 1) / 2);
  }

  /** For 1 and for 5 to 46343 no draw overflows, and every round decides what RoundPasses says. */
  lemma {:induction false} MachineRoundCorrect(val: nat, r: nat)
    requires val == 1 || 5 <= val <= 46343
    ensures MachineTest(val, r).Value?
    ensures MachineTest(val, r).p == 1 <==> RoundPasses(val, r)
  {
    assert ToInt(val - 1) == val - 1;
    if 5 <= val <= 46341 {
      SmallSquares(val);
      MachineAgrees(val, val - 1, 1, BaseOf(val, r), val - 1);
    } else if val == 46342 {
      Squares46342(val);
      MachineAgrees(val, 46340, 1, BaseOf(val, r), val - 1);
    } else if val == 46343 {
      First46343(val, BaseOf(val, r));
    }
  }

  /** No iteration is made exactly when val is 1 modulo 2^32, and then every draw passes. */
  lemma {:induction false} NoIterationIff(val: nat)
    requires val >= 1
    ensures ToInt(val - 1) == 0 <==> (val - 1) % UINT_RANGE == 0
    ensures ToInt(val - 1) == 0 ==> forall r: nat :: MachineTest(val, r) == Value(1)
  {
  }

  /** Such a number can be composite: 4294967297 = 641 * 6700417 passes whatever is drawn. */
  lemma {:induction false} CompositeAlwaysAccepted(val: nat)
    requires val == 0x1_0000_0001
    ensures !Prime(val) && forall r: nat :: MachineTest(val, r) == Value(1)
  {
    DividesIntro(641, val, 6700417);
    NoIterationIff(val);
  }

  /** For 2, for 3 and from 46344 on the draw 46339 overflows in the first squaring, if there is one. */
  lemma {:induction false} MachineOverflows(val: nat)
    requires val == 2 || val == 3 || val >= 46344
    requires (val - 1) % UINT_RANGE != 0
    ensures MachineTest(val, 46339) == Overflow
    ensures ToInt(val - 1) < 0 ==> forall r: nat :: MachineTest(val, r) == Overflow
  {
    NoIterationIff(val);
    var m := if val > 4 then val - 4 else val - 4 + ULONG_RANGE;
    DivModUnique(46339, m, 0, 46339);
    assert BaseOf(val, 46339) == 46341;
    if ToInt(val - 1) < 0 {
      forall r: nat ensures MachineTest(val, r) == Overflow {
        NegativeOverflows(val, 1, BaseOf(val, r), ToInt(val - 1));
      }
    }
  }

  /** No draw overflows exactly for 5 to 46343 and the numbers that are 1 modulo 2^32. */
  lemma {:induction false} FitsIff(val: nat)
    requires val >= 1 && val != 4
    ensures (5 <= val <= 46343 || (val - 1) % UINT_RANGE == 0) <==>
            forall r: nat :: MachineTest(val, r).Value?
  {
    if 5 <= val <= 46343 {
      forall r: nat ensures MachineTest(val, r).Value? {
        MachineRoundCorrect(val, r);
      }
    } else if (val - 1) % UINT_RANGE == 0 {
      NoIterationIff(val);
    } else {
      MachineOverflows(val);
    }
  }
}
