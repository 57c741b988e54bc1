/** Which iteration of a round of isPrime in src/util/arithmetic.h overflows, and what the others compute. */
module MachineOverflow {
  import opened CTypes
  import opened NumberTheory
  import opened PrimeSearch
  import opened MachineRun

  /** The value of a before iteration i. */
  function BaseAt(val: nat, a: nat, i: nat): nat
    requires val > 0
  {
    TwoPower(i);
    if i == 0 then a else Pow(a, Pow(2, i)) % val
  }

  /** The value of p before iteration i: the lower i bits of the exponent are done. */
  function ProductAt(val: nat, a: nat, exp: nat, i: nat): nat
    requires val > 0
  {
    TwoPower(i);
    Pow(a, exp % Pow(2, i)) % val
  }

  /** Iteration i is made, and its square or its product exceeds INT_MAX. */
  predicate Overruns(val: nat, a: nat, exp: nat, i: nat)
    requires val > 0
  {
    TwoPower(i);
    var bits, b := exp / Pow(2, i), BaseAt(val, a, i);
    bits != 0 && (b * b > INT_MAX || (bits % 2 == 1 && ProductAt(val, a, exp, i) * b > INT_MAX))
  }

  lemma {:induction false} TwoPower(i: nat)
    ensures Pow(2, i) >= 1
  {
    if i > 0 {
      TwoPower(i - 1);
    }
  }

  lemma {:induction false} TwoPowerMonotonic(i: nat, j: nat)
    requires i <= j
    ensures 1 <= Pow(2, i) <= Pow(2, j)
    decreases j
  {
    if i < j {
      TwoPowerMonotonic(i, j - 1);
    } else {
      TwoPower(i);
    }
  }

  lemma {:induction false} BaseNext(val: nat, a: nat, i: nat, b: nat)
    requires val > 0 && b == BaseAt(val, a, i)
    ensures (b * b) % val == BaseAt(val, a, i + 1)
  {
    var w := Pow(2, i);
    TwoPower(i);
    PowAdd(a, w, w);
    var u := Pow(a, w);
    if i == 0 {
      assert u == a;
    } else {
      ModMul(u, u, val);
      ModMul(u, u % val, val);
      assert u % val * u == u * (u % val);
    }
  }

  /** The bit of the exponent below 2^(i + 1) that is not below 2^i. */
  lemma {:induction false} NextBit(exp: nat, w: nat, bits: nat)
    requires w >= 1 && bits == exp / w
    ensures exp / (2 * w) == bits / 2
    ensures exp % (2 * w) == exp % w + bits % 2 * w
  {
    assert exp == bits * w + exp % w;
    var q, r := bits / 2, bits % 2;
    assert bits * w == q * (2 * w) + r * w;
    DivModUnique(exp, 2 * w, q, r * w + exp % w);
  }

  lemma {:induction false} ProductNext(val: nat, a: nat, exp: nat, i: nat, w: nat, bits: nat)
    requires val > 1 && w == Pow(2, i) && w >= 1 && bits == exp / w
    ensures ProductAt(val, a, exp, i + 1) ==
            if bits % 2 == 1 then (ProductAt(val, a, exp, i) * BaseAt(val, a, i)) % val else ProductAt(val, a, exp, i)
  {
    NextBit(exp, w, bits);
    if bits % 2 == 1 {
      var u, v := Pow(a, exp % w), Pow(a, w);
      PowAdd(a, exp % w, w);
      ModMul(u, v, val);
      assert i == 0 ==> v == a;
      ModMul(v, u % val, val);
      assert u % val * v == v * (u % val) && u % val * (v % val) == v % val * (u % val);
    }
  }

  /** From iteration i on, the loop overflows exactly when one of the iterations does. */
  lemma {:induction false} OverflowFrom(val: nat, a: nat, exp: nat, i: nat, w: nat, bits: nat)
    requires val > 1 && w == Pow(2, i) && w >= 1 && bits == exp / w
    ensures MachineRound(val, ProductAt(val, a, exp, i), BaseAt(val, a, i), bits) == Overflow <==>
            exists j: nat :: j >= i && Overruns(val, a, exp, j)
    decreases bits
  {
    if bits == 0 {
      forall j: nat | j >= i ensures !Overruns(val, a, exp, j) {
        TwoPowerMonotonic(i, j);
        SmallDivides(exp, w, Pow(2, j));
      }
    } else if Overruns(val, a, exp, i) {
    } else {
      NextBit(exp, w, bits);
      BaseNext(val, a, i, BaseAt(val, a, i));
      ProductNext(val, a, exp, i, w, bits);
      OverflowFrom(val, a, exp, i + 1, 2 * w, bits / 2);
      if j: nat :| j >= i && Overruns(val, a, exp, j) {
        assert j >= i + 1;
      }
    }
  }

  lemma {:induction false} SmallDivides(exp: nat, w: nat, w': nat)
    requires 1 <= w <= w' && exp / w == 0
    ensures exp / w' == 0
  {
    assert exp == exp % w;
    DivModUnique(exp, w', 0, exp);
  }

  /** A loop that does not overflow ends with the power. */
  lemma {:induction false} ValueIsPower(val: nat, p: nat, a: nat, exp: nat)
    requires val > 1 && p < val && MachineRound(val, p, a, exp).Value?
    ensures MachineRound(val, p, a, exp).p == (p * Pow(a, exp)) % val
    decreases exp
  {
    if exp == 0 {
      DivModUnique(p, val, 0, p);
    } else {
      SquareMultiplyStep(val, p, a, exp);
      ValueIsPower(val, if exp % 2 == 1 then (p * a) % val else p, (a * a) % val, exp / 2);
    }
  }

  /**
   A round on ints, for every number and every draw: it overflows exactly when some iteration
   does or the exponent is negative, and otherwise ends with the power to val - 1 as an int.
   */
  lemma {:induction false} MachineTestIs(val: nat, r: nat)
    requires val > 1 && val != 4
    ensures var exp, a := ToInt(val - 1), BaseOf(val, r);
            if exp < 0 then MachineTest(val, r) == Overflow
            else if exists i: nat :: Overruns(val, a, exp, i) then MachineTest(val, r) == Overflow
            else MachineTest(val, r) == Value(Pow(a, exp) % val)
  {
    var exp, a := ToInt(val - 1), BaseOf(val, r);
    if exp < 0 {
      NegativeOverflows(val, 1, a, exp);
    } else {
      DivModUnique(1, val, 0, 1);
      OverflowFrom(val, a, exp, 0, 1, exp);
      if MachineTest(val, r).Value? {
        ValueIsPower(val, 1, a, exp);
      }
    }
  }
}
