/** How many random outcomes can fool a round, and a run, of isPrime in src/util/arithmetic.h. */
module FermatLiars {
  import opened Counting
  import opened NumberTheory
  import opened CandidateSearch
  import opened PrimeSearch

  /* ---------- Liars ---------- */

  predicate Fools(val: nat, a: int)
    requires val > 1
  {
    Pow(a, val - 1) % val == 1
  }

  /** The bases below val that survive a round. */
  ghost function Liars(val: nat): set<int>
    requires val > 1
  {
    set a | 1 <= a < val && Fools(val, a)
  }

  /** b undoes multiplication by w modulo val. */
  predicate Inverse(val: nat, w: int, b: int)
    requires val > 0
  {
    (w * b) % val == 1
  }

  function Times(val: nat, w: int): int -> int
    requires val > 0
  {
    a => (w * a) % val
  }

  lemma {:induction false} TimesUndone(val: nat, w: int, b: int, a: int)
    requires val > 1 && Inverse(val, w, b) && 0 <= a < val
    ensures (b * Times(val, w)(a)) % val == a
  {
    ModMul(w * a, b, val);
    ModMul(w * b, a, val);
    assert (w * a) * b == (w * b) * a;
    assert b * ((w * a) % val) == (w * a) % val * b;
    DivModUnique(a, val, 0, a);
  }

  lemma {:induction false} PowProduct(x: int, y: int, e: nat)
    ensures Pow(x * y, e) == Pow(x, e) * Pow(y, e)
  {
    if e > 0 {
      PowProduct(x, y, e - 1);
      Rearrange(x, y, Pow(x, e - 1), Pow(y, e - 1));
    }
  }

  lemma {:induction false} Rearrange(x: int, y: int, u: int, v: int)
    ensures x * y * (u * v) == x * u * (y * v)
  {
    assert x * y * (u * v) == x * (y * (u * v)) == x * (u * (y * v));
  }

  /** A product of a base that is no liar and a liar is no liar. */
  lemma {:induction false} TimesLiar(val: nat, w: int, a: int)
    requires val > 1 && !Fools(val, w) && Fools(val, a)
    ensures !Fools(val, Times(val, w)(a))
  {
    var u, v := Pow(w, val - 1), Pow(a, val - 1);
    PowMod(w * a, val - 1, val);
    PowProduct(w, a, val - 1);
    ModMul(v, u, val);
    assert u * v == v * u;
    assert v % val * u == u;
  }

  /** Multiplying the liars by an invertible base that is none gives as many bases that are none. */
  lemma {:induction false} LiarsShifted(val: nat, w: int, b: int)
    requires val > 1 && Inverse(val, w, b) && !Fools(val, w)
    ensures |Image(Times(val, w), Liars(val))| == |Liars(val)|
    ensures Image(Times(val, w), Liars(val)) <= Interval(1, val) - Liars(val)
  {
    var l, f := Liars(val), Times(val, w);
    forall x, y | x in l && y in l && f(x) == f(y) ensures x == y {
      TimesUndone(val, w, b, x);
      TimesUndone(val, w, b, y);
    }
    ImageSize(f, l);
    forall a | a in l ensures f(a) in Interval(1, val) - l {
      TimesInRange(val, w, b, a);
      TimesLiar(val, w, a);
    }
  }

  lemma {:induction false} TimesInRange(val: nat, w: int, b: int, a: int)
    requires val > 1 && Inverse(val, w, b) && 1 <= a < val
    ensures 1 <= Times(val, w)(a) < val
  {
    TimesUndone(val, w, b, a);
    if Times(val, w)(a) == 0 {
      DivModUnique(0, val, 0, 0);
    }
  }

  /** With an invertible base that is no liar, at most half of the bases are liars. */
  lemma {:induction false} HalfAreLiars(val: nat, w: int, b: int)
    requires val > 1 && Inverse(val, w, b) && !Fools(val, w)
    ensures 2 * |Liars(val)| <= val - 1
  {
    var l, n := Liars(val), Image(Times(val, w), Liars(val));
    LiarsShifted(val, w, b);
    assert |l + n| == |l| + |n|;
    SubsetSize(l + n, Interval(1, val));
  }

  /* ---------- Random outcomes ---------- */

  /** The draws below val - 4 give every base from 2 to val - 3 once; these are the ones that pass. */
  ghost function PassingDraws(val: nat): set<int>
    requires val >= 5
  {
    set r: int | 0 <= r < val - 4 && RoundPasses(val, r)
  }

  lemma {:induction false} DrawIsBase(val: nat, r: nat)
    requires val >= 5 && r < val - 4
    ensures BaseOf(val, r) == r + 2 && (RoundPasses(val, r) <==> Fools(val, r + 2))
  {
    DivModUnique(r, val - 4, 0, r);
  }

  /** 1 and -1 are liars for every odd number. */
  lemma {:induction false} TrivialLiars(val: nat)
    requires val >= 5 && val % 2 == 1
    ensures Fools(val, 1) && Fools(val, val - 1)
  {
    PowOne(val - 1);
    DivModUnique(1, val, 0, 1);
    PowNegative(1, val - 1);
    DivModUnique(-1, val, -1, val - 1);
    PowMod(-1, val - 1, val);
  }

  /** The bases of the passing draws are liars other than 1 and -1. */
  lemma {:induction false} PassingBases(val: nat)
    requires val >= 5 && val % 2 == 1
    ensures |PassingDraws(val)| + 2 <= |Liars(val)|
  {
    TrivialLiars(val);
    var draws, shift := PassingDraws(val), (r: int) => r + 2;
    var bases := Image(shift, draws);
    ImageSize(shift, draws);
    forall r | r in draws ensures shift(r) in Liars(val) - {1, val - 1} {
      DrawIsBase(val, r);
    }
    SubsetSize(bases, Liars(val) - {1, val - 1});
  }

  /**
   The error of one round for an odd number: as soon as one invertible base fails, fewer than
   half of the draws below val - 4 pass.
   */
  lemma {:induction false} FewerThanHalfPass(val: nat, w: int, b: int)
    requires val >= 5 && val % 2 == 1 && Inverse(val, w, b) && !Fools(val, w)
    ensures 2 * |PassingDraws(val)| < val - 4
  {
    HalfAreLiars(val, w, b);
    PassingBases(val);
  }

  /* ---------- A whole run ---------- */

  /** The outcomes of k draws below val - 4. */
  ghost function Outcomes(val: nat, k: nat): set<seq<int>>
    requires val >= 5
  {
    Tuples(Interval(0, val - 4), k)
  }

  /** The outcomes with which k rounds all pass. */
  ghost function AcceptingOutcomes(val: nat, k: nat): set<seq<int>>
    requires val >= 5
  {
    Tuples(PassingDraws(val), k)
  }

  /** The draws that t stands for. */
  function DrawsOf(t: seq<int>): nat -> nat {
    (i: nat) => if i < |t| && t[i] >= 0 then t[i] else 0
  }

  /** With nine rounds these are the outcomes with which isPrime returns 1. */
  lemma {:induction false} AcceptingIff(val: nat, t: seq<int>, k: nat)
    requires val >= 5 && k == ROUNDS
    ensures t in AcceptingOutcomes(val, k) <==> t in Outcomes(val, k) && Accepts(val, DrawsOf(t), 0)
  {
    TuplesAre(Interval(0, val - 4), k, t);
    TuplesAre(PassingDraws(val), k, t);
    if t in Outcomes(val, k) {
      forall i: nat | i < k ensures t[i] in PassingDraws(val) <==> RoundPasses(val, DrawsOf(t)(i)) {
      }
    }
  }

  lemma {:induction false} OutcomesSize(val: nat, k: nat, m: nat, n: nat)
    requires val >= 5 && m == |PassingDraws(val)| && n == val - 4
    ensures |AcceptingOutcomes(val, k)| == Pow(m, k) && |Outcomes(val, k)| == Pow(n, k)
  {
    TuplesSize(Interval(0, n), k, n);
    TuplesSize(PassingDraws(val), k, m);
  }

  lemma {:induction false} PowScales(m: nat, n: nat, k: nat)
    requires k > 0 && 2 * m < n
    ensures Pow(2, k) * Pow(m, k) < Pow(n, k)
  {
    PowProduct(2, m, k);
    PowBelow(2 * m, n, k);
  }

  lemma {:induction false} PowBelow(m: nat, n: nat, k: nat)
    requires k > 0 && m < n
    ensures 0 <= Pow(m, k) < Pow(n, k)
  {
    if k > 1 {
      PowBelow(m, n, k - 1);
      ProductBelow(m, n, Pow(m, k - 1), Pow(n, k - 1));
    }
  }

  lemma {:induction false} ProductBelow(m: nat, n: nat, u: nat, v: nat)
    requires m < n && u < v
    ensures 0 <= m * u < n * v
  {
    MulMonotonic(u, v, m);
    MulMonotonic(m + 1, n, v);
  }

  /**
   The error of k rounds for an odd number with an invertible base that fails: fewer than one in
   2^k of the outcomes of k draws below val - 4 are accepted; isPrime has k = 9.
   */
  lemma {:induction false} FewOutcomesAccept(val: nat, w: int, b: int, k: nat)
    requires val >= 5 && val % 2 == 1 && Inverse(val, w, b) && !Fools(val, w) && k > 0
    ensures |Outcomes(val, k)| == Pow(val - 4, k)
    ensures Pow(2, k) * |AcceptingOutcomes(val, k)| < Pow(val - 4, k)
  {
    var m: nat, n: nat := |PassingDraws(val)|, val - 4;
    FewerThanHalfPass(val, w, b);
    OutcomesSize(val, k, m, n);
    PowScales(m, n, k);
  }
}
