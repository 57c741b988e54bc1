/**
 The outcome of the search loop of findPrimeGreaterThan in src/util/arithmetic.h for an
 arbitrary round test: pass(c, i) says whether candidate c survives a round with draw number i.
 */
module CandidateSearch {
  const ROUNDS := 9

  /** The nine rounds that begin with draw number at all pass. */
  predicate Accepted(pass: (nat, nat) -> bool, c: nat, at: nat) {
    forall i :: at <= i < at + ROUNDS ==> pass(c, i)
  }

  /** The number of the draw after a test with draws from at to before end: a failing round ends it. */
  function NextDraw(pass: (nat, nat) -> bool, c: nat, at: nat, end: nat): (next: nat)
    requires at <= end
    ensures at <= next <= end && (at < end ==> at < next)
    decreases end - at
  {
    if at == end then end
    else if pass(c, at) then NextDraw(pass, c, at + 1, end)
    else at + 1
  }

  /** A test stops right after its first failing round. */
  lemma {:induction false} StopsAtFailure(pass: (nat, nat) -> bool, c: nat, at: nat, m: nat, end: nat)
    requires at <= m < end && !pass(c, m) && forall i :: at <= i < m ==> pass(c, i)
    ensures NextDraw(pass, c, at, end) == m + 1
    decreases m - at
  {
    if at < m {
      StopsAtFailure(pass, c, at + 1, m, end);
    }
  }

  /** An accepting test takes every draw it can. */
  lemma {:induction false} AllDrawn(pass: (nat, nat) -> bool, c: nat, at: nat, end: nat)
    requires at <= end && forall i :: at <= i < end ==> pass(c, i)
    ensures NextDraw(pass, c, at, end) == end
    decreases end - at
  {
    if at < end {
      AllDrawn(pass, c, at + 1, end);
    }
  }

  /**
   The search that tests candidate c with draw number at next rejects k candidates from c on
   and accepts the one after them, and its next draw is number next.
   */
  predicate Outcome(pass: (nat, nat) -> bool, c: nat, at: nat, k: nat, next: nat)
    decreases k
  {
    if Accepted(pass, c, at) then k == 0 && next == at + ROUNDS
    else k > 0 && Outcome(pass, c + 2, NextDraw(pass, c, at, at + ROUNDS), k - 1, next)
  }

  lemma {:induction false} OutcomeNow(pass: (nat, nat) -> bool, c: nat, at: nat, next: nat)
    requires Accepted(pass, c, at) && next == NextDraw(pass, c, at, at + ROUNDS)
    ensures Outcome(pass, c, at, 0, next)
  {
    AllDrawn(pass, c, at, at + ROUNDS);
  }

  lemma {:induction false} OutcomeLater(pass: (nat, nat) -> bool, c: nat, at: nat, next: nat, k: nat, n: nat)
    requires !Accepted(pass, c, at) && next == NextDraw(pass, c, at, at + ROUNDS)
    requires Outcome(pass, c + 2, next, k, n)
    ensures Outcome(pass, c, at, k + 1, n)
  {
  }

  /** The draws determine the outcome. */
  lemma {:induction false} OutcomeUnique(pass: (nat, nat) -> bool, c: nat, at: nat, k: nat, n: nat, k': nat, n': nat)
    requires Outcome(pass, c, at, k, n) && Outcome(pass, c, at, k', n')
    ensures k == k' && n == n'
    decreases k
  {
    if k > 0 && k' > 0 {
      OutcomeUnique(pass, c + 2, NextDraw(pass, c, at, at + ROUNDS), k - 1, n, k' - 1, n');
    }
  }

  /** The last nine draws pass for the candidate returned, and each one before it fails with an earlier draw. */
  lemma {:induction false} OutcomeMeans(pass: (nat, nat) -> bool, c: nat, at: nat, k: nat, n: nat, found: nat)
    requires Outcome(pass, c, at, k, n) && found == c + 2 * k
    ensures n >= at + k + 9 && forall i :: n - 9 <= i < n ==> pass(found, i)
    ensures forall j: nat :: j < k ==> FailsBetween(pass, c + 2 * j, at, n - 9)
    decreases k
  {
    if k > 0 {
      var next := NextDraw(pass, c, at, at + ROUNDS);
      OutcomeMeans(pass, c + 2, next, k - 1, n, found);
      var m: nat :| at <= m < at + ROUNDS && !pass(c, m) && forall i :: at <= i < m ==> pass(c, i);
      StopsAtFailure(pass, c, at, m, at + ROUNDS);
      forall j: nat | j < k ensures FailsBetween(pass, c + 2 * j, at, n - 9) {
        if j == 0 {
          assert !pass(c, m);
        } else {
          assert FailsBetween(pass, c + 2 + 2 * (j - 1), next, n - 9);
        }
      }
    }
  }

  ghost predicate FailsBetween(pass: (nat, nat) -> bool, c: nat, lo: nat, hi: nat) {
    exists i: nat :: lo <= i < hi && !pass(c, i)
  }

  /** Every outcome from c on is, with k more rejections, one from first on. */
  ghost predicate Continues(pass: (nat, nat) -> bool, first: nat, start: nat, k: nat, c: nat, at: nat) {
    forall j: nat, n: nat :: Outcome(pass, c, at, j, n) ==> Outcome(pass, first, start, k + j, n)
  }

  lemma {:induction false} ContinuesNext(pass: (nat, nat) -> bool, first: nat, start: nat, k: nat, c: nat, at: nat, next: nat)
    requires Continues(pass, first, start, k, c, at) && !Accepted(pass, c, at)
    requires next == NextDraw(pass, c, at, at + ROUNDS)
    ensures Continues(pass, first, start, k + 1, c + 2, next)
  {
    var c' := c + 2;
    forall j: nat, n: nat ensures Outcome(pass, c', next, j, n) ==> Outcome(pass, first, start, k + 1 + j, n) {
      if Outcome(pass, c', next, j, n) {
        OutcomeLater(pass, c, at, next, j, n);
      }
    }
  }

  lemma {:induction false} ContinuesEnds(pass: (nat, nat) -> bool, first: nat, start: nat, k: nat, c: nat, at: nat, next: nat)
    requires Continues(pass, first, start, k, c, at) && Accepted(pass, c, at)
    requires next == NextDraw(pass, c, at, at + ROUNDS)
    ensures Outcome(pass, first, start, k, next)
  {
    OutcomeNow(pass, c, at, next);
  }
}
