/** findPrimeGreaterThan of src/util/arithmetic.h on 32-bit ints: when no random outcome makes it overflow. */
module MachineSearch {
  import opened CTypes
  import opened NumberTheory
  import opened CandidateSearch
  import opened PrimeSearch
  import opened MachineRun
  import opened MachineOverflow

  datatype Test = Broken | Decided(accepted: bool, next: nat)

  /** isPrime with the draws from at to before end. */
  function MachineIsPrime(val: nat, draw: nat -> nat, at: nat, end: nat): Test
    requires val >= 1 && val != 4 && at <= end
    decreases end - at
  {
    if at == end then Decided(true, end)
    else match MachineTest(val, draw(at))
      case Overflow => Broken
      case Value(p) =>
        if p != 1 then Decided(false, at + 1) else MachineIsPrime(val, draw, at + 1, end)
  }

  datatype Search = Undefined | Found(found: int, next: nat)

  /** The search from an odd candidate; stepping above INT_MAX overflows too. */
  function MachineLoop(c: int, draw: nat -> nat, at: nat): Search
    requires c >= INT_MIN && c % 2 == 1
    decreases INT_MAX - c
  {
    if c > INT_MAX then Undefined
    else
      OddCandidate(c);
      match MachineIsPrime(ToUlong(c), draw, at, at + ROUNDS)
      case Broken => Undefined
      case Decided(accepted, next) => if accepted then Found(c, next) else MachineLoop(c + 2, draw, next)
  }

  lemma {:induction false} OddCandidate(c: int)
    requires IsInt(c) && c % 2 == 1
    ensures ToUlong(c) >= 1 && ToUlong(c) != 4 && (c + 2) % 2 == 1
  {
  }

  function MachineFind(val: int, draw: nat -> nat, start: nat): Search
    requires IsInt(val)
  {
    MachineLoop(FirstCandidate(val), draw, start)
  }

  /* ---------- Where it is defined ---------- */

  /** For 1 and for 5 to 46343 the test on ints is the test of the round meaning. */
  lemma {:induction false} MachineIsPrimeCorrect(val: nat, draw: nat -> nat, at: nat, end: nat, pass: (nat, nat) -> bool)
    requires (val == 1 || 5 <= val <= 46343) && at <= end && Agrees(pass, draw)
    ensures MachineIsPrime(val, draw, at, end) ==
            Decided(forall i :: at <= i < end ==> pass(val, i), NextDraw(pass, val, at, end))
    decreases end - at
  {
    if at < end {
      MachineRoundCorrect(val, draw(at));
      assert pass(val, at) <==> RoundPasses(val, draw(at));
      MachineIsPrimeCorrect(val, draw, at + 1, end, pass);
    }
  }

  lemma {:induction false} LoopStep(c: nat, draw: nat -> nat, at: nat, pass: (nat, nat) -> bool, next: nat)
    requires (c == 1 || 5 <= c <= 46343) && c % 2 == 1 && Agrees(pass, draw)
    requires next == NextDraw(pass, c, at, at + ROUNDS)
    ensures MachineLoop(c, draw, at) == if Accepted(pass, c, at) then Found(c, next) else MachineLoop(c + 2, draw, next)
  {
    MachineIsPrimeCorrect(c, draw, at, at + ROUNDS, pass);
  }

  lemma {:induction false} NoSmallDivisor(n: nat)
    requires n == 46337
    ensures NoDivisorUpTo(n, 111)
  {
    assert NoDivisorUpTo(46337, 15);
    assert NoDivisorUpTo(46337, 31);
    assert NoDivisorUpTo(46337, 47);
    assert NoDivisorUpTo(46337, 63);
    assert NoDivisorUpTo(46337, 79);
    assert NoDivisorUpTo(46337, 95);
    assert NoDivisorUpTo(46337, 111);
  }

  lemma {:induction false} Prime46337(n: nat)
    requires n == 46337
    ensures Prime(n)
  {
    NoSmallDivisor(n);
    assert NoDivisorUpTo(46337, 127);
    assert NoDivisorUpTo(46337, 143);
    assert NoDivisorUpTo(46337, 159);
    assert NoDivisorUpTo(46337, 175);
    assert NoDivisorUpTo(46337, 191);
    assert NoDivisorUpTo(46337, 207);
    TrialDivision(n, 215);
  }

  /** A search that gets to a candidate up to 46337 ends by then, as 46337 is prime. */
  lemma {:induction false} LoopEnds(c: nat, draw: nat -> nat, at: nat, pass: (nat, nat) -> bool) returns (k: nat, next: nat)
    requires Agrees(pass, draw) && c % 2 == 1 && (c == 1 || 5 <= c <= 46337)
    ensures Outcome(pass, c, at, k, next)
    ensures MachineLoop(c, draw, at) == Found(c + 2 * k, next)
    decreases 46337 - c
  {
    var after := NextDraw(pass, c, at, at + ROUNDS);
    LoopStep(c, draw, at, pass, after);
    if Accepted(pass, c, at) {
      k, next := 0, after;
      OutcomeNow(pass, c, at, next);
    } else {
      StopsBy46337(pass, c, draw, at);
      var j;
      j, next := LoopEnds(c + 2, draw, after, pass);
      OutcomeLater(pass, c, at, after, j, next);
      k := j + 1;
    }
  }

  lemma {:induction false} StopsBy46337(pass: (nat, nat) -> bool, c: nat, draw: nat -> nat, at: nat)
    requires Agrees(pass, draw) && !Accepted(pass, c, at) && c % 2 == 1 && (c == 1 || 5 <= c <= 46337)
    ensures 5 <= c < c + 2 <= 46337 && (c + 2) % 2 == 1
  {
    OnePasses(pass, draw, at);
    Prime46337(46337);
    RejectedComposite(pass, c, draw, at);
  }

  /** From -1, 0 and 3 to 46336 the C code returns what the search on unbounded integers returns. */
  lemma {:induction false} MachineFindCorrect(val: int, draw: nat -> nat, start: nat, pass: (nat, nat) -> bool)
    returns (k: nat, next: nat)
    requires Agrees(pass, draw) && (val == -1 || val == 0 || 3 <= val <= 46336)
    ensures Outcome(pass, FirstCandidate(val), start, k, next)
    ensures MachineFind(val, draw, start) == Found(FirstCandidate(val) + 2 * k, next)
  {
    k, next := LoopEnds(FirstCandidate(val), draw, start, pass);
  }

  /* ---------- Every candidate ---------- */

  /** The test on ints stops right after the first round that does not end with 1. */
  lemma {:induction false} MachineStopsAt(val: nat, draw: nat -> nat, at: nat, m: nat, end: nat)
    requires val >= 1 && val != 4 && at <= m <= end
    requires forall i :: at <= i < m ==> MachineTest(val, draw(i)) == Value(1)
    ensures m == end ==> MachineIsPrime(val, draw, at, end) == Decided(true, end)
    ensures m < end && MachineTest(val, draw(m)) == Overflow ==> MachineIsPrime(val, draw, at, end) == Broken
    ensures m < end && MachineTest(val, draw(m)).Value? && MachineTest(val, draw(m)).p != 1 ==>
              MachineIsPrime(val, draw, at, end) == Decided(false, m + 1)
    decreases m - at
  {
    if at < m {
      MachineStopsAt(val, draw, at + 1, m, end);
    }
  }

  /** A round on ints that does not overflow decides what RoundPasses says. */
  lemma {:induction false} ValueDecides(val: nat, r: nat)
    requires 1 <= val <= INT_MAX && val != 4 && MachineTest(val, r).Value?
    ensures MachineTest(val, r).p == 1 <==> RoundPasses(val, r)
  {
    assert ToInt(val - 1) == val - 1;
    if val > 1 {
      MachineTestIs(val, r);
    }
  }

  /** A test on ints that does not overflow decides, and takes the draws, as the mathematical one. */
  lemma {:induction false} DecidedCorrect(val: nat, draw: nat -> nat, at: nat, end: nat, pass: (nat, nat) -> bool)
    requires 1 <= val <= INT_MAX && val != 4 && at <= end && Agrees(pass, draw)
    requires MachineIsPrime(val, draw, at, end).Decided?
    ensures MachineIsPrime(val, draw, at, end) ==
            Decided(forall i :: at <= i < end ==> pass(val, i), NextDraw(pass, val, at, end))
    decreases end - at
  {
    if at < end {
      ValueDecides(val, draw(at));
      assert pass(val, at) <==> RoundPasses(val, draw(at));
      if pass(val, at) {
        DecidedCorrect(val, draw, at + 1, end, pass);
      }
    }
  }

  lemma {:induction false} LoopUnfolds(c: nat, draw: nat -> nat, at: nat, t: Test)
    requires 1 <= c <= INT_MAX && c != 4 && c % 2 == (c + 2) % 2 == 1
    requires t == MachineIsPrime(c, draw, at, at + ROUNDS)
    ensures MachineLoop(c, draw, at) ==
            match t
            case Broken => Undefined
            case Decided(accepted, next) => if accepted then Found(c, next) else MachineLoop(c + 2, draw, next)
  {
    assert ToUlong(c) == c;
  }

  lemma {:induction false} FoundBounded(c: nat, draw: nat -> nat, at: nat)
    requires c % 2 == 1 && MachineLoop(c, draw, at).Found?
    ensures c <= INT_MAX && c != 4 && (c + 2) % 2 == 1
  {
    if c <= INT_MAX {
      OddCandidate(c);
    }
  }

  /** What the search on ints finds from a positive candidate is what the search on integers finds. */
  lemma {:induction false} FoundIsOutcome(c: nat, draw: nat -> nat, at: nat, pass: (nat, nat) -> bool) returns (k: nat)
    requires c % 2 == 1 && Agrees(pass, draw) && MachineLoop(c, draw, at).Found?
    ensures MachineLoop(c, draw, at).found == c + 2 * k
    ensures Outcome(pass, c, at, k, MachineLoop(c, draw, at).next)
    decreases INT_MAX - c
  {
    var after := NextDraw(pass, c, at, at + ROUNDS);
    FoundBounded(c, draw, at);
    var t := MachineIsPrime(c, draw, at, at + ROUNDS);
    LoopUnfolds(c, draw, at, t);
    DecidedCorrect(c, draw, at, at + ROUNDS, pass);
    if Accepted(pass, c, at) {
      k := 0;
      OutcomeNow(pass, c, at, after);
    } else {
      var j := FoundIsOutcome(c + 2, draw, after, pass);
      OutcomeLater(pass, c, at, after, j, MachineLoop(c, draw, at).next);
      k := j + 1;
    }
  }

  /** A test none of whose rounds overflows decides. */
  lemma {:induction false} NoOverflowDecides(val: nat, draw: nat -> nat, at: nat, end: nat, pass: (nat, nat) -> bool)
    requires 1 <= val <= INT_MAX && val != 4 && at <= end && Agrees(pass, draw)
    requires forall i :: at <= i < NextDraw(pass, val, at, end) ==> MachineTest(val, draw(i)).Value?
    ensures MachineIsPrime(val, draw, at, end).Decided?
    decreases end - at
  {
    if at < end {
      assert MachineTest(val, draw(at)).Value?;
      ValueDecides(val, draw(at));
      assert pass(val, at) <==> RoundPasses(val, draw(at));
      if pass(val, at) {
        NoOverflowDecides(val, draw, at + 1, end, pass);
      }
    }
  }

  /** No round on the candidate with one of the draws from at to before n overflows. */
  ghost predicate RoundsFit(c: nat, draw: nat -> nat, at: nat, n: nat)
    requires c % 2 == 1
  {
    forall i :: at <= i < n ==> MachineTest(c, draw(i)).Value?
  }

  lemma {:induction false} StepWithoutOverflow(c: nat, draw: nat -> nat, at: nat, pass: (nat, nat) -> bool, after: nat, n: nat)
    requires c % 2 == 1 && c <= INT_MAX && Agrees(pass, draw) && RoundsFit(c, draw, at, n)
    requires after == NextDraw(pass, c, at, at + ROUNDS) && after <= n
    ensures (c + 2) % 2 == 1
    ensures MachineLoop(c, draw, at) == if Accepted(pass, c, at) then Found(c, after) else MachineLoop(c + 2, draw, after)
  {
    OddCandidate(c);
    NoOverflowDecides(c, draw, at, at + ROUNDS, pass);
    DecidedCorrect(c, draw, at, at + ROUNDS, pass);
    LoopUnfolds(c, draw, at, MachineIsPrime(c, draw, at, at + ROUNDS));
  }

  /** Up to INT_MAX and without an overflowing round, the search on ints finds what the search on integers finds. */
  lemma {:induction false} FoundWithoutOverflow(c: nat, draw: nat -> nat, at: nat, pass: (nat, nat) -> bool, k: nat, n: nat)
    requires c % 2 == 1 && c + 2 * k <= INT_MAX && Agrees(pass, draw) && Outcome(pass, c, at, k, n)
    requires forall c': nat :: c <= c' <= c + 2 * k && c' % 2 == 1 ==> RoundsFit(c', draw, at, n)
    ensures MachineLoop(c, draw, at) == Found(c + 2 * k, n)
    decreases k
  {
    var after := NextDraw(pass, c, at, at + ROUNDS);
    OutcomeEnds(pass, c, at, k, n);
    assert RoundsFit(c, draw, at, n);
    StepWithoutOverflow(c, draw, at, pass, after, n);
    if k == 0 {
      AllDrawn(pass, c, at, at + ROUNDS);
    } else {
      forall c': nat | c + 2 <= c' <= c + 2 * k && c' % 2 == 1 ensures RoundsFit(c', draw, after, n) {
        assert RoundsFit(c', draw, at, n);
      }
      FoundWithoutOverflow(c + 2, draw, after, pass, k - 1, n);
    }
  }

  lemma {:induction false} OutcomeEnds(pass: (nat, nat) -> bool, c: nat, at: nat, k: nat, n: nat)
    requires Outcome(pass, c, at, k, n)
    ensures at <= NextDraw(pass, c, at, at + ROUNDS) <= n
    decreases k
  {
    if k > 0 {
      OutcomeEnds(pass, c + 2, NextDraw(pass, c, at, at + ROUNDS), k - 1, n);
    }
  }

  /* ---------- Where it is not ---------- */

  /** A draw that rejects 46339 = 149 * 311, 46341 = 3 * 15447 or 46343 = 11 * 4213, or else overflows. */
  function BadDraw(c: int): nat {
    if c == 46339 then 147 else if c == 46341 then 1 else if c == 46343 then 9 else 46339
  }

  function BadDraws(first: int, start: nat): nat -> nat {
    i => BadDraw(first + 2 * (i - start))
  }

  lemma {:induction false} BadDrawRejects(c: nat, d: nat, r: nat)
    requires 5 <= c <= 46343 && 2 <= d <= c - 3 && r == d - 2 && Divides(d, c)
    ensures MachineTest(c, r).Value? && MachineTest(c, r).p != 1
  {
    DivModUnique(r, c - 4, 0, r);
    DividesIntro(d, d, 1);
    CommonFactorRejects(c, d, d);
    MachineRoundCorrect(c, r);
  }

  /** 3 and the odd ints from 46339 on lead to an overflow. */
  lemma {:induction false} LoopBreaks(first: int, c: int, start: nat, at: nat)
    requires c % 2 == 1 && INT_MIN <= c && (c < 0 || c == 3 || c >= 46339) && c == first + 2 * (at - start)
    ensures MachineLoop(c, BadDraws(first, start), at) == Undefined
    decreases if c < 46345 then 46345 - c else 0
  {
    var draw := BadDraws(first, start);
    assert draw(at) == BadDraw(c);
    if c == 46339 {
      BadDrawRejects(c, 149, draw(at));
      LoopBreaks(first, c + 2, start, at + 1);
    } else if c == 46341 {
      BadDrawRejects(c, 3, draw(at));
      LoopBreaks(first, c + 2, start, at + 1);
    } else if c == 46343 {
      BadDrawRejects(c, 11, draw(at));
      LoopBreaks(first, c + 2, start, at + 1);
    } else if c <= INT_MAX {
      MachineOverflows(ToUlong(c));
    }
  }

  lemma {:induction false} NegativeTestBreaks(c: int, draw: nat -> nat, at: nat)
    requires INT_MIN <= c < 0 && c % 2 == 1
    ensures ToUlong(c) != 4 && MachineIsPrime(ToUlong(c), draw, at, at + ROUNDS) == Broken
  {
    NegativeExponent(c);
    MachineOverflows(ToUlong(c));
    assert MachineTest(ToUlong(c), draw(at)) == Overflow;
  }

  lemma {:induction false} NegativeExponent(c: int)
    requires INT_MIN < c < 0
    ensures ToUlong(c) > INT_MAX && ToInt(ToUlong(c) - 1) < 0
    ensures (ToUlong(c) - 1) % UINT_RANGE != 0
  {
    DivModUnique(ToUlong(c) - 1 + 0x8000_0000, UINT_RANGE, UINT_RANGE, c - 1 + 0x8000_0000);
    DivModUnique(ToUlong(c) - 1, UINT_RANGE, UINT_RANGE - 1, c - 1 + UINT_RANGE);
  }

  /** Below -1 every random outcome overflows, in the first round. */
  lemma {:induction false} NegativeStartBreaks(val: int, draw: nat -> nat, start: nat)
    requires IsInt(val) && val < -1
    ensures MachineFind(val, draw, start) == Undefined
  {
    NegativeTestBreaks(FirstCandidate(val), draw, start);
  }

  /** No random outcome makes the search overflow exactly from -1, 0 and 3 to 46336. */
  lemma {:induction false} SearchFitsIff(val: int)
    requires IsInt(val)
    ensures (val == -1 || val == 0 || 3 <= val <= 46336) <==>
            forall draw: nat -> nat, start: nat :: MachineFind(val, draw, start).Found?
  {
    if val == -1 || val == 0 || 3 <= val <= 46336 {
      forall draw: nat -> nat, start: nat ensures MachineFind(val, draw, start).Found? {
        RoundsAgree(draw);
        var k, next := MachineFindCorrect(val, draw, start, Rounds(draw));
      }
    } else {
      LoopBreaks(FirstCandidate(val), FirstCandidate(val), 0, 0);
      assert !MachineFind(val, BadDraws(FirstCandidate(val), 0), 0).Found?;
    }
  }
}
