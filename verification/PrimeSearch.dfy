/**
 The Fermat test and the prime search of src/util/arithmetic.h.

 The i-th call of rand() in a run is draw(i), for an arbitrary function draw, so a
 statement about every draw is a statement about every random outcome. Integers are
 unbounded here; MachineRun and MachineSearch follow the C code's 32-bit ints.
 */
module PrimeSearch {
  import opened CTypes
  import opened NumberTheory
  import opened CandidateSearch

  /** The base drawn for one round; val - 4 wraps around as an unsigned long below 4. */
  function BaseOf(val: nat, r: nat): (a: nat)
    requires val != 4
    ensures a >= 2
    ensures val >= 5 ==> a <= val - 3
  {
    r % (if val > 4 then val - 4 else val - 4 + ULONG_RANGE) + 2
  }

  /** The draw is reduced modulo val - 4, or modulo 2^64 + val - 4 below 4. */
  lemma {:induction false} BaseIs(val: nat, r: nat, q: nat, d: nat)
    requires val != 4
    requires val >= 5 ==> d < val - 4 && r == (val - 4) * q + d
    requires val < 4 ==> d < 0xffff_ffff_ffff_fffc + val && r == (0xffff_ffff_ffff_fffc + val) * q + d
    ensures BaseOf(val, r) == d + 2
  {
    DivModUnique(r, if val > 4 then val - 4 else val - 4 + ULONG_RANGE, q, d);
  }

  /** The mathematical meaning of surviving one round with the draw r. */
  predicate RoundPasses(val: nat, r: nat)
    requires val >= 1 && val != 4
  {
    val == 1 || Pow(BaseOf(val, r), val - 1) % val == 1
  }

  /** The nine rounds that begin with draw number start all pass. */
  predicate Accepts(val: nat, draw: nat -> nat, start: nat)
    requires val >= 1 && val != 4
  {
    forall i :: start <= i < start + ROUNDS ==> RoundPasses(val, draw(i))
  }

  /** The round test of isPrime when the random outcomes are draw. */
  function Rounds(draw: nat -> nat): (nat, nat) -> bool {
    (c: nat, i: nat) => c >= 1 && c != 4 && RoundPasses(c, draw(i))
  }

  /** pass is that round test. The methods take it as a ghost, so that the search sees no powers. */
  ghost predicate Agrees(pass: (nat, nat) -> bool, draw: nat -> nat) {
    forall c: nat, i: nat {:trigger RoundPasses(c, draw(i))} ::
      c >= 1 && c != 4 ==> (pass(c, i) <==> RoundPasses(c, draw(i)))
  }

  lemma {:induction false} RoundsAgree(draw: nat -> nat)
    ensures Agrees(Rounds(draw), draw)
  {
  }

  lemma {:induction false} AcceptedIff(pass: (nat, nat) -> bool, draw: nat -> nat, val: nat, start: nat)
    requires Agrees(pass, draw) && val >= 1 && val != 4
    ensures Accepted(pass, val, start) <==> Accepts(val, draw, start)
  {
    forall i: nat ensures pass(val, i) <==> RoundPasses(val, draw(i)) {
    }
  }

  /** One square-and-multiply loop. */
  method FermatRound(val: nat, base: nat) returns (p: nat)
    requires val >= 1
    ensures val == 1 ==> p == 1
    ensures val > 1 ==> p == Pow(base, val - 1) % val
  {
    var a: nat, exp: nat := base, val - 1;
    p := 1;
    while exp != 0
      invariant val == 1 ==> p == 1
      invariant val > 1 ==> p < val && (p * Pow(a, exp)) % val == Pow(base, val - 1) % val
      decreases exp
    {
      SquareMultiplyStep(val, p, a, exp);
      if exp % 2 == 1 {
        p := (p * a) % val;
      }
      a := (a * a) % val;
      exp := exp / 2;
    }
    if val > 1 {
      DivModUnique(p, val, 0, p);
    }
  }

  /** One iteration keeps p * a^exp modulo val. */
  lemma {:induction false} SquareMultiplyStep(val: nat, p: nat, a: nat, exp: nat)
    requires val > 0 && exp > 0
    ensures var p' := if exp % 2 == 1 then (p * a) % val else p;
            (p' * Pow((a * a) % val, exp / 2)) % val == (p * Pow(a, exp)) % val
  {
    var h := exp / 2;
    var u, v := Pow((a * a) % val, h), Pow(a * a, h);
    var q := if exp % 2 == 1 then p * a else p;
    PowMod(a * a, h, val);
    PowSquare(a, h);
    ModMul(q, u, val);
    ModMul(u, q, val);
    ModMul(v, q, val);
    assert q * u == u * q;
    assert q * v == v * q;
    if exp % 2 == 1 {
      assert Pow(a, exp) == a * Pow(a, 2 * h);
      assert (p * a) * v == p * (a * v);
    }
  }

  method IsPrime(val: nat, draw: nat -> nat, start: nat, ghost pass: (nat, nat) -> bool)
    returns (accepted: bool, next: nat)
    requires val >= 1 && val != 4 && Agrees(pass, draw)
    ensures accepted <==> Accepted(pass, val, start)
    ensures next == NextDraw(pass, val, start, start + ROUNDS)
    ensures accepted <==> forall i :: start <= i < start + 9 ==> pass(val, i)
    ensures accepted ==> next == start + 9
    ensures !accepted ==>
              start < next <= start + 9 && !pass(val, next - 1) && forall i :: start <= i < next - 1 ==> pass(val, i)
  {
    next := start;
    var i := ROUNDS;
    while i != 0
      invariant 0 <= i <= ROUNDS && next == start + ROUNDS - i
      invariant forall j :: start <= j < next ==> pass(val, j)
    {
      i := i - 1;
      var a := BaseOf(val, draw(next));
      var p := FermatRound(val, a);
      assert p == 1 <==> RoundPasses(val, draw(next));
      next := next + 1;
      if p != 1 {
        StopsAtFailure(pass, val, start, next - 1, start + ROUNDS);
        return false, next;
      }
    }
    AllDrawn(pass, val, start, start + ROUNDS);
    return true, next;
  }

  /* ---------- What the test decides ---------- */

  /** A prime survives a round unless it divides the base that was drawn. */
  lemma {:induction false} PrimeRoundExact(val: nat, r: nat)
    requires Prime(val)
    ensures val != 4
    ensures RoundPasses(val, r) <==> !Divides(val, BaseOf(val, r))
  {
    assert val == 4 ==> Divides(2, val);
    var a := BaseOf(val, r);
    if Divides(val, a) {
      DividesPow(val, a, val - 1);
    } else {
      FermatLittle(val, a);
    }
  }

  /** No draw makes the test reject a prime from 5 on. */
  lemma {:induction false} PrimeNeverRejected(val: nat, r: nat)
    requires Prime(val) && val >= 5
    ensures RoundPasses(val, r)
  {
    PrimeRoundExact(val, r);
    DivModUnique(BaseOf(val, r), val, 0, BaseOf(val, r));
  }

  /** A base sharing a factor with val is always a witness against val. */
  lemma {:induction false} CommonFactorRejects(val: nat, a: nat, d: nat)
    requires val >= 2 && d >= 2 && Divides(d, val) && Divides(d, a)
    ensures Pow(a, val - 1) % val != 1
  {
    if Pow(a, val - 1) % val == 1 {
      DivModUnique(1, val, 0, 1);
      SameRemainder(Pow(a, val - 1), 1, val);
      DividesTransitive(d, val, Pow(a, val - 1) - 1);
      DividesPow(d, a, val - 1);
      DividesSum(d, Pow(a, val - 1), Pow(a, val - 1) - 1);
      DivModUnique(1, d, 0, 1);
      assert false;
    }
  }

  /** Every composite from 5 on has a draw that exposes it. */
  lemma {:induction false} CompositeHasWitness(val: nat) returns (r: nat)
    requires val >= 5 && !Prime(val)
    ensures !RoundPasses(val, r)
  {
    var d: int :| 2 <= d < val && Divides(d, val);
    assert d <= val - 3 by {
      if d >= val - 2 {
        DivModUnique(val, d, 1, val - d);
        assert false;
      }
    }
    r := d - 2;
    DivModUnique(r, val - 4, 0, r);
    DividesIntro(d, d, 1);
    CommonFactorRejects(val, d, d);
  }

  /** From 5 on, a number is prime exactly when no random outcome rejects it. */
  lemma {:induction false} PrimeIffNeverRejected(val: nat)
    requires val >= 5
    ensures Prime(val) <==> forall r: nat :: RoundPasses(val, r)
  {
    if Prime(val) {
      forall r: nat ensures RoundPasses(val, r) {
        PrimeNeverRejected(val, r);
      }
    } else {
      var r := CompositeHasWitness(val);
    }
  }

  /** A single outcome proves nothing: 341 = 11 * 31 survives when rand() yields 0. */
  lemma {:induction false} PseudoprimeAccepted(start: nat)
    ensures !Prime(341) && Accepts(341, _ => 0, start)
  {
    DividesIntro(11, 341, 31);
    assert Pow(2, 10) == 1024 by {
      PowAdd(2, 5, 5);
    }
    PowPeriod(2, 10, 34, 341);
  }

  lemma {:induction false} PowPeriod(b: int, e: nat, n: nat, m: int)
    requires m > 1 && Pow(b, e) % m == 1
    ensures Pow(b, e * n) % m == 1
  {
    if n == 0 {
      DivModUnique(1, m, 0, 1);
    } else {
      PowPeriod(b, e, n - 1, m);
      assert e * n == e + e * (n - 1);
      PowAdd(b, e, e * (n - 1));
      ModMul(Pow(b, e), Pow(b, e * (n - 1)), m);
    }
  }

  /** Rejection is reliable from 5 on. */
  lemma {:induction false} RejectedNotPrime(val: nat, draw: nat -> nat, start: nat)
    requires val >= 5 && !Accepts(val, draw, start)
    ensures !Prime(val)
  {
    if Prime(val) {
      forall i | start <= i < start + ROUNDS ensures RoundPasses(val, draw(i)) {
        PrimeNeverRejected(val, draw(i));
      }
    }
  }

  /** The test on 3 is decided by whether a drawn base is a multiple of 3. */
  lemma {:induction false} ThreeAccepted(pass: (nat, nat) -> bool, draw: nat -> nat, start: nat)
    requires Agrees(pass, draw)
    ensures Accepted(pass, 3, start) <==>
            forall i :: start <= i < start + ROUNDS ==> BaseOf(3, draw(i)) % 3 != 0
  {
    SmallPrimes(3);
    forall i: nat ensures pass(3, i) <==> BaseOf(3, draw(i)) % 3 != 0 {
      PrimeRoundExact(3, draw(i));
    }
  }

  lemma {:induction false} SmallPrimes(p: int)
    ensures p == 2 || p == 3 ==> Prime(p)
    ensures Prime(p) && p > 2 ==> p % 2 == 1
  {
    assert p > 2 && p % 2 == 0 ==> Divides(2, p);
  }

  /* ---------- The search ---------- */

  /** Whether the search from val skips no prime, given its first nine draws. */
  predicate SkipsNoPrime(val: int, draw: nat -> nat, start: nat) {
    val <= 0 || val >= 3 ||
    (val == 2 && forall i :: start <= i < start + ROUNDS ==> BaseOf(3, draw(i)) % 3 != 0)
  }

  ghost predicate NoPrimeBetween(lo: int, hi: int) {
    forall m :: lo < m < hi ==> !Prime(m)
  }

  /** Below -1 the exponent never reaches 0: see NegativeCandidateLoops. */
  method FindPrimeGreaterThan(val: int, draw: nat -> nat, start: nat, ghost pass: (nat, nat) -> bool)
    returns (found: nat, next: nat)
    requires val >= -1 && Agrees(pass, draw)
    ensures found > val && found % 2 == 1
    ensures next >= start + 9 && forall i :: next - 9 <= i < next ==> pass(found, i)
    ensures Outcome(pass, FirstCandidate(val), start, (found - FirstCandidate(val)) / 2, next)
    ensures SkipsNoPrime(val, draw, start) <==> NoPrimeBetween(val, found)
  {
    ghost var limit := GoalAbove(pass, FirstCandidate(val), draw);
    ghost var k;
    found, next, k := SearchLoop(FirstCandidate(val), draw, start, pass, limit);
    OutcomeMeans(pass, FirstCandidate(val), start, k, next, found);
    SearchEnds(pass, val, k, draw, start, next);
  }

  /** The loop goes up in steps of 2 and stops at the latest at a number that no test rejects. */
  method SearchLoop(first: nat, draw: nat -> nat, start: nat, ghost pass: (nat, nat) -> bool, ghost limit: nat)
    returns (found: nat, next: nat, ghost k: nat)
    requires Agrees(pass, draw) && first % 2 == 1 && NeverRejected(pass, first + 2 * limit)
    ensures found == first + 2 * k && Outcome(pass, first, start, k, next)
  {
    k := 0;
    ghost var at: nat := start;
    found := first;
    var accepted: bool;
    accepted, next := IsPrime(found, draw, start, pass);
    while !accepted
      invariant k <= limit && found == first + 2 * k
      invariant Continues(pass, first, start, k, found, at)
      invariant accepted <==> Accepted(pass, found, at)
      invariant next == NextDraw(pass, found, at, at + ROUNDS)
      decreases limit - k
    {
      ContinuesNext(pass, first, start, k, found, at, next);
      BelowLimit(pass, first, k, limit, found, at);
      found := found + 2;
      k := k + 1;
      at := next;
      accepted, next := IsPrime(found, draw, next, pass);
    }
    ContinuesEnds(pass, first, start, k, found, at, next);
  }

  lemma {:induction false} BelowLimit(pass: (nat, nat) -> bool, first: nat, k: nat, limit: nat, c: nat, at: nat)
    requires k <= limit && NeverRejected(pass, first + 2 * limit) && c == first + 2 * k && !Accepted(pass, c, at)
    ensures k < limit
  {
  }

  ghost predicate NeverRejected(pass: (nat, nat) -> bool, c: nat) {
    forall at: nat :: Accepted(pass, c, at)
  }

  lemma {:induction false} GoalAbove(pass: (nat, nat) -> bool, first: nat, draw: nat -> nat) returns (limit: nat)
    requires Agrees(pass, draw) && first % 2 == 1
    ensures NeverRejected(pass, first + 2 * limit)
  {
    var goal := PrimeAbove(first + 4);
    SmallPrimes(goal);
    limit := (goal - first) / 2;
    forall at: nat ensures Accepted(pass, goal, at) {
      if !Accepted(pass, goal, at) {
        RejectedComposite(pass, goal, draw, at);
      }
    }
  }

  function FirstCandidate(val: int): (c: int)
    ensures c % 2 == 1 && val < c <= val + 2
  {
    if val % 2 == 1 then val + 2 else val + 1
  }

  /** The exponent of a round after k iterations: >>= keeps the sign. */
  function Shifted(exp: int, k: nat): int {
    if k == 0 then exp else Shifted(exp, k - 1) / 2
  }

  /** k shifts divide by 2^k, rounding down. */
  lemma {:induction false} ShiftedIs(exp: int, k: nat)
    ensures Shifted(exp, k) * Pow(2, k) <= exp < (Shifted(exp, k) + 1) * Pow(2, k)
  {
    if k > 0 {
      ShiftedIs(exp, k - 1);
      ShiftStep(Shifted(exp, k - 1), Shifted(exp, k), Pow(2, k - 1), exp);
    }
  }

  lemma {:induction false} ShiftStep(s: int, h: int, w: nat, exp: int)
    requires h == s / 2 && s * w <= exp < (s + 1) * w
    ensures h * (2 * w) <= exp < (h + 1) * (2 * w)
  {
    MulMonotonic(2 * h, s, w);
    MulMonotonic(s + 1, 2 * h + 2, w);
  }

  /**
   The search starts from a negative candidate exactly below -1. Its exponent is then
   negative too, and no number of iterations makes it 0, so the first round never ends.
   */
  lemma {:induction false} NegativeCandidateLoops(val: int, k: nat)
    ensures FirstCandidate(val) < 0 <==> val < -1
    ensures val < -1 ==> Shifted(FirstCandidate(val) - 1, k) < 0
  {
    if k > 0 {
      NegativeCandidateLoops(val, k - 1);
    }
  }

  lemma {:induction false} RejectedComposite(pass: (nat, nat) -> bool, c: nat, draw: nat -> nat, at: nat)
    requires Agrees(pass, draw) && !Accepted(pass, c, at)
    ensures c >= 5 ==> !Prime(c)
  {
    if c >= 5 {
      AcceptedIff(pass, draw, c, at);
      RejectedNotPrime(c, draw, at);
    }
  }

  /** A rejected candidate above 3 is composite, and so is the even number after it. */
  lemma {:induction false} GapStep(lo: nat, hi: nat)
    requires lo >= 3 && hi % 2 == 1 && NoPrimeBetween(lo, hi) && (hi >= 5 ==> !Prime(hi))
    ensures NoPrimeBetween(lo, hi + 2) && (hi + 2) % 2 == 1
  {
    SmallPrimes(hi + 1);
  }

  /** No prime above 3 is passed by. */
  lemma {:induction false} RejectedGap(pass: (nat, nat) -> bool, lo: nat, c: nat, k: nat, draw: nat -> nat, at: nat, next: nat)
    requires Agrees(pass, draw) && lo >= 3 && c % 2 == 1 && NoPrimeBetween(lo, c)
    requires Outcome(pass, c, at, k, next)
    ensures NoPrimeBetween(lo, c + 2 * k)
    decreases k
  {
    if k > 0 {
      RejectedComposite(pass, c, draw, at);
      GapStep(lo, c);
      RejectedGap(pass, lo, c + 2, k - 1, draw, NextDraw(pass, c, at, at + ROUNDS), next);
    }
  }

  /** The candidate 1 passes every test, so only 2 and 3 can be skipped. */
  lemma {:induction false} SearchEnds(pass: (nat, nat) -> bool, val: int, k: nat, draw: nat -> nat, start: nat, next: nat)
    requires Agrees(pass, draw) && val >= -1 && Outcome(pass, FirstCandidate(val), start, k, next)
    ensures SkipsNoPrime(val, draw, start) <==> NoPrimeBetween(val, FirstCandidate(val) + 2 * k)
  {
    SmallPrimes(val + 1);
    RejectedGap(pass, if val < 3 then 3 else val, FirstCandidate(val), k, draw, start, next);
    SmallPrimes(2);
    SmallPrimes(3);
    if val <= 0 {
      OnePasses(pass, draw, start);
    } else if val == 1 {
      assert 1 < 2 < 3 + 2 * k;
    } else if val == 2 {
      ThreeAccepted(pass, draw, start);
      assert k > 0 ==> 2 < 3 < 3 + 2 * k;
    }
  }

  lemma {:induction false} OnePasses(pass: (nat, nat) -> bool, draw: nat -> nat, start: nat)
    requires Agrees(pass, draw)
    ensures Accepted(pass, 1, start)
  {
    AcceptedIff(pass, draw, 1, start);
  }
}
