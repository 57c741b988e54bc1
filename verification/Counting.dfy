/** Sizes of images, intervals and sets of tuples. */
module Counting {
  import opened NumberTheory

  ghost function Image<A, B>(f: A -> B, s: set<A>): set<B> {
    set x | x in s :: f(x)
  }

  lemma {:induction false} ImageSizeStep<A(!new), B>(f: A -> B, s: set<A>, x: A)
    requires x in s && (forall y :: y in s - {x} ==> f(y) != f(x))
    ensures |Image(f, s)| == |Image(f, s - {x})| + 1
  {
    var rest := s - {x};
    assert f(x) !in Image(f, rest);
    assert Image(f, s) == Image(f, rest) + {f(x)};
  }

  /** An injective function keeps sizes. */
  lemma {:induction false} ImageSize<A(!new), B>(f: A -> B, s: set<A>)
    requires forall x, y :: x in s && y in s && f(x) == f(y) ==> x == y
    ensures |Image(f, s)| == |s|
    decreases |s|
  {
    if s != {} {
      var x :| x in s;
      ImageSizeStep(f, s, x);
      ImageSize(f, s - {x});
    }
  }

  ghost function Interval(lo: int, hi: int): (s: set<int>)
    ensures forall i :: i in s <==> lo <= i < hi
    ensures |s| == if lo <= hi then hi - lo else 0
    decreases hi - lo
  {
    if lo >= hi then {} else Interval(lo, hi - 1) + {hi - 1}
  }

  lemma {:induction false} SubsetSize<T>(s: set<T>, t: set<T>)
    requires s <= t
    ensures |s| <= |t|
  {
    assert t == s + (t - s);
  }

  /* ---------- Tuples ---------- */

  function Snoc<T>(x: T): seq<T> -> seq<T> {
    t => t + [x]
  }

  /** The tuples of ts, each followed by an element of s. */
  ghost function Longer<T(!new)>(ts: set<seq<T>>, s: set<T>): set<seq<T>> {
    set t, x | t in ts && x in s :: Snoc(x)(t)
  }

  lemma {:induction false} SnocSize<T(!new)>(ts: set<seq<T>>, x: T)
    ensures |Image(Snoc(x), ts)| == |ts|
  {
    forall t, u | t in ts && u in ts && Snoc(x)(t) == Snoc(x)(u) ensures t == u {
      assert t == Snoc(x)(t)[..|t|] == Snoc(x)(u)[..|u|] == u;
    }
    ImageSize(Snoc(x), ts);
  }

  lemma {:induction false} LongerSplits<T(!new)>(ts: set<seq<T>>, s: set<T>, x: T)
    requires x in s
    ensures Longer(ts, s) == Longer(ts, s - {x}) + Image(Snoc(x), ts)
    ensures Longer(ts, s - {x}) !! Image(Snoc(x), ts)
  {
    forall t, y, u | t in ts && y in s - {x} && u in ts ensures Snoc(y)(t) != Snoc(x)(u) {
      assert Snoc(y)(t)[|t|] == y;
      assert Snoc(x)(u)[|u|] == x;
    }
  }

  lemma {:induction false} LongerSizeStep<T(!new)>(ts: set<seq<T>>, s: set<T>, x: T)
    requires x in s
    ensures |Longer(ts, s)| == |Longer(ts, s - {x})| + |ts|
  {
    LongerSplits(ts, s, x);
    SnocSize(ts, x);
  }

  lemma {:induction false} LongerSize<T(!new)>(ts: set<seq<T>>, s: set<T>, m: nat, n: nat)
    requires m == |ts| && n == |s|
    ensures |Longer(ts, s)| == m * n
    decreases n
  {
    if s == {} {
      assert Longer(ts, s) == {};
    } else {
      var x :| x in s;
      LongerSizeStep(ts, s, x);
      LongerSize(ts, s - {x}, m, n - 1);
    }
  }

  /** The k-tuples over s. */
  ghost function Tuples<T(!new)>(s: set<T>, k: nat): set<seq<T>> {
    if k == 0 then {[]} else Longer(Tuples(s, k - 1), s)
  }

  lemma {:induction false} TuplesSize<T(!new)>(s: set<T>, k: nat, n: nat)
    requires n == |s|
    ensures |Tuples(s, k)| == Pow(n, k)
  {
    if k > 0 {
      TuplesSize(s, k - 1, n);
      var m := Pow(n, k - 1);
      LongerSize(Tuples(s, k - 1), s, m, n);
      assert m * n == n * m;
    }
  }

  lemma {:induction false} TuplesAre<T(!new)>(s: set<T>, k: nat, t: seq<T>)
    ensures t in Tuples(s, k) <==> |t| == k && forall i :: 0 <= i < k ==> t[i] in s
  {
    if k > 0 {
      forall u: seq<T> ensures u in Tuples(s, k - 1) <==> |u| == k - 1 && forall i :: 0 <= i < k - 1 ==> u[i] in s {
        TuplesAre(s, k - 1, u);
      }
      if |t| == k {
        assert t == Snoc(t[k - 1])(t[..k - 1]);
      }
    }
  }
}
