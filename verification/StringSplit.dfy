/**
 The tokenizer strsplit of src/util/stringops.h. Strings carry no NUL. The array of
 char pointers that strsplit returns is a sequence of optional strings that ends with
 the NULL terminator.
 */
module StringSplit {
  import opened Wrappers

  /** The delimiter between the lines of a request. */
  const CRLF := "\r\n"

  /* ---------- strstr ---------- */

  predicate OccursAt(s: string, d: string, i: int) {
    0 <= i && i + |d| <= |s| && s[i..i + |d|] == d
  }

  ghost predicate Contains(s: string, d: string) {
    exists i :: OccursAt(s, d, i)
  }

  function StrStr(s: string, d: string): (r: Option<nat>)
    ensures r.Some? ==> OccursAt(s, d, r.value) && forall i :: 0 <= i < r.value ==> !OccursAt(s, d, i)
    ensures r.None? ==> !Contains(s, d)
  {
    StrStrFrom(s, d, 0)
  }

  function StrStrFrom(s: string, d: string, from: nat): (r: Option<nat>)
    ensures r.Some? ==> r.value >= from && OccursAt(s, d, r.value)
    ensures r.Some? ==> forall i :: from <= i < r.value ==> !OccursAt(s, d, i)
    ensures r.None? ==> forall i :: from <= i ==> !OccursAt(s, d, i)
    decreases |s| - from
  {
    if from + |d| > |s| then None
    else if OccursAt(s, d, from) then Some(from)
    else StrStrFrom(s, d, from + 1)
  }

  /* ---------- What splitting means ---------- */

  /** The pieces between successive leftmost, non-overlapping delimiters. */
  function Pieces(s: string, d: string): (ps: seq<string>)
    requires d != ""
    ensures ps != []
    decreases |s|
  {
    match StrStr(s, d)
    case None => [s]
    case Some(k) => [s[..k]] + Pieces(s[k + |d|..], d)
  }

  function Join(ts: seq<string>, d: string): string
    requires ts != []
  {
    if |ts| == 1 then ts[0] else ts[0] + d + Join(ts[1..], d)
  }

  /** The pieces that become tokens: an empty last piece does not. */
  function Present(ps: seq<string>): (qs: seq<string>)
    requires ps != []
  {
    if ps[|ps| - 1] == "" then ps[..|ps| - 1] else ps
  }

  function NonNull(qs: seq<string>): (slots: seq<Option<string>>)
    ensures |slots| == |qs| && forall i :: 0 <= i < |qs| ==> slots[i] == Some(qs[i])
  {
    seq(|qs|, i requires 0 <= i < |qs| => Some(qs[i]))
  }

  lemma {:induction false} NonNullConcat(a: seq<string>, b: seq<string>)
    ensures NonNull(a + b) == NonNull(a) + NonNull(b)
  {
  }

  /** An array of strings with its NULL terminator. */
  function Pointers(qs: seq<string>): (slots: seq<Option<string>>)
    ensures |slots| == |qs| + 1 && slots[|qs|] == None
    ensures forall i :: 0 <= i < |qs| ==> slots[i] == Some(qs[i])
  {
    NonNull(qs) + [None]
  }

  /** The returned array, up to and including its NULL terminator. */
  function Slots(s: string, d: string): seq<Option<string>>
    requires d != ""
  {
    Pointers(Present(Pieces(s, d)))
  }

  /** Every piece but an empty last one is in its slot. */
  lemma {:induction false} SlotAt(s: string, d: string)
    requires d != ""
    ensures var ps, slots := Pieces(s, d), Slots(s, d);
            && (forall i :: 0 <= i < |ps| - 1 ==> slots[i] == Some(ps[i]))
            && slots[|ps| - 1] == (if ps[|ps| - 1] == "" then None else Some(ps[|ps| - 1]))
  {
  }

  /** The counting pass: one more than the number of delimiters stepped over. */
  method CountPieces(str: string, delims: string) returns (count: nat)
    requires delims != ""
    ensures count == |Pieces(str, delims)|
  {
    var tmp := str;
    var tok := StrStr(tmp, delims);
    count := 0;
    while tok.Some?
      invariant tok == StrStr(tmp, delims)
      invariant count + |Pieces(tmp, delims)| == |Pieces(str, delims)|
      decreases |tmp|
    {
      tmp := tmp[tok.value + |delims|..];
      count := count + 1;
      tok := StrStr(tmp, delims);
    }
    count := count + 1;
  }

  /** The cutting pass: every piece but the last goes into its slot. */
  method CutPieces(str: string, delims: string, slots: array<Option<string>>) returns (i: nat, tmp: string)
    requires delims != "" && slots.Length == |Pieces(str, delims)| + 1
    modifies slots
    ensures i == |Pieces(str, delims)| - 1 && tmp == Pieces(str, delims)[i]
    ensures forall j :: 0 <= j < i ==> slots[j] == Some(Pieces(str, delims)[j])
  {
    ghost var ps := Pieces(str, delims);
    tmp, i := str, 0;
    var tok := StrStr(tmp, delims);
    while tok.Some?
      invariant tok == StrStr(tmp, delims)
      invariant i < |ps| && ps[i..] == Pieces(tmp, delims)
      invariant forall j :: 0 <= j < i ==> slots[j] == Some(ps[j])
      decreases |tmp|
    {
      PiecesStep(ps, i, tmp, delims);
      slots[i] := Some(tmp[..tok.value]);
      i := i + 1;
      tmp := tmp[tok.value + |delims|..];
      tok := StrStr(tmp, delims);
    }
    assert ps[i..] == [tmp];
  }

  lemma {:induction false} PiecesStep(ps: seq<string>, i: nat, s: string, d: string)
    requires d != "" && i < |ps| && ps[i..] == Pieces(s, d) && StrStr(s, d).Some?
    ensures i + 1 < |ps| && ps[i] == s[..StrStr(s, d).value]
    ensures ps[i + 1..] == Pieces(s[StrStr(s, d).value + |d|..], d)
  {
  }

  /** Counts the pieces, then cuts the tokens into an array of count + 1 slots. */
  method StrSplit(str: string, delims: string) returns (result: seq<Option<string>>, len: nat)
    requires delims != ""
    ensures result == Slots(str, delims)
    ensures len == |Pieces(str, delims)|
  {
    len := CountPieces(str, delims);
    var slots := new Option<string>[len + 1](_ => None);
    var i, tmp := CutPieces(str, delims, slots);
    if tmp != "" {
      slots[i] := Some(tmp);
      i := i + 1;
    }
    slots[i] := None;
    result := slots[..i + 1];
  }

  /* ---------- Join after split ---------- */

  lemma {:induction false} JoinPieces(s: string, d: string)
    requires d != ""
    ensures Join(Pieces(s, d), d) == s
    decreases |s|
  {
    var r := StrStr(s, d);
    if r.Some? {
      var rest := s[r.value + |d|..];
      JoinPieces(rest, d);
      assert s == s[..r.value] + d + rest;
      assert Pieces(s, d)[1..] == Pieces(rest, d);
    }
  }

  /** A NULL entry reads as the empty string. */
  function TextOf(slot: Option<string>): string {
    if slot.Some? then slot.value else ""
  }

  /** The reported length counts the pieces, the last of which may be the NULL entry. */
  lemma {:induction false} JoinAfterSplit(s: string, d: string)
    requires d != ""
    ensures var len := |Pieces(s, d)|;
            len <= |Slots(s, d)| <= len + 1 &&
            Join(seq(len, i requires 0 <= i < len => TextOf(Slots(s, d)[i])), d) == s
  {
    var ps := Pieces(s, d);
    assert seq(|ps|, i requires 0 <= i < |ps| => TextOf(Slots(s, d)[i])) == ps;
    JoinPieces(s, d);
  }

  lemma {:induction false} PiecesAreFree(s: string, d: string)
    requires d != ""
    ensures forall p :: p in Pieces(s, d) ==> !Contains(p, d)
    decreases |s|
  {
    var r := StrStr(s, d);
    if r.Some? {
      var first := s[..r.value];
      PiecesAreFree(s[r.value + |d|..], d);
      if i :| OccursAt(first, d, i) {
        assert OccursAt(s, d, i);
      }
    }
  }

  /** Each piece but the last ends at the first delimiter in what is left, for every delimiter. */
  lemma {:induction false} PiecesAreLeftmost(s: string, d: string, i: nat)
    requires d != "" && i < |Pieces(s, d)|
    ensures StrStr(Join(Pieces(s, d)[i..], d), d) ==
            if i == |Pieces(s, d)| - 1 then None else Some(|Pieces(s, d)[i]|)
    decreases |s|
  {
    var ps := Pieces(s, d);
    if i == 0 {
      JoinPieces(s, d);
      assert ps[0..] == ps;
    } else {
      var rest := s[StrStr(s, d).value + |d|..];
      PiecesAreLeftmost(rest, d, i - 1);
      assert ps[i..] == Pieces(rest, d)[i - 1..];
    }
  }

  /* ---------- Split after join ---------- */

  /** No proper prefix of d is also a suffix of d. */
  predicate Unbordered(d: string) {
    forall n :: 0 < n < |d| ==> d[..n] != d[|d| - n..]
  }

  ghost predicate Separable(ts: seq<string>, d: string) {
    ts != [] && forall t :: t in ts ==> !Contains(t, d)
  }

  /** A delimiter that starts inside t lies inside t or overlaps itself. */
  lemma {:induction false} EarlyDelimiter(t: string, d: string, rest: string, i: int)
    requires i < |t| && OccursAt(t + d + rest, d, i)
    ensures Contains(t, d) || !Unbordered(d)
  {
    var s := t + d + rest;
    if i + |d| <= |t| {
      assert OccursAt(t, d, i);
    } else {
      var n := i + |d| - |t|;
      assert d[..n] == s[|t|..i + |d|] == d[|d| - n..];
    }
  }

  /** After a token free of d, the next d is found where it was put. */
  lemma {:induction false} FirstDelimiter(t: string, d: string, rest: string)
    requires d != "" && Unbordered(d) && !Contains(t, d)
    ensures StrStr(t + d + rest, d) == Some(|t|)
  {
    assert OccursAt(t + d + rest, d, |t|);
    forall i | 0 <= i < |t| ensures !OccursAt(t + d + rest, d, i) {
      if OccursAt(t + d + rest, d, i) {
        EarlyDelimiter(t, d, rest, i);
      }
    }
  }

  lemma {:induction false} NoDelimiter(t: string, d: string)
    requires !Contains(t, d)
    ensures StrStr(t, d) == None
  {
  }

  lemma {:induction false} SplitAfterJoin(ts: seq<string>, d: string)
    requires d != "" && Unbordered(d) && Separable(ts, d)
    ensures Pieces(Join(ts, d), d) == ts
  {
    if |ts| == 1 {
      NoDelimiter(ts[0], d);
    } else {
      var rest := Join(ts[1..], d);
      FirstDelimiter(ts[0], d, rest);
      SplitAfterJoin(ts[1..], d);
      assert (ts[0] + d + rest)[|ts[0]| + |d|..] == rest;
      assert (ts[0] + d + rest)[..|ts[0]|] == ts[0];
    }
  }

  /** A bordered delimiter breaks the round trip on two tokens. */
  lemma {:induction false} BorderedWitness(d: string) returns (ts: seq<string>)
    requires d != "" && !Unbordered(d)
    ensures Separable(ts, d) && Pieces(Join(ts, d), d) != ts
  {
    var n :| 0 < n < |d| && d[..n] == d[|d| - n..];
    var x := d[..|d| - n];
    ts := [x, ""];
    assert Join(ts, d) == x + d + "";
    assert OccursAt(x + d + "", d, 0) by {
      assert (x + d + "")[..|d|] == x + d[..n] == d;
    }
    assert Pieces(Join(ts, d), d)[0] == "";
  }

  /** Splitting undoes joining for all token lists exactly when the delimiter has no border. */
  lemma {:induction false} SplitUndoesJoinIff(d: string)
    requires d != ""
    ensures Unbordered(d) <==> forall ts :: Separable(ts, d) ==> Pieces(Join(ts, d), d) == ts
  {
    if Unbordered(d) {
      forall ts | Separable(ts, d) ensures Pieces(Join(ts, d), d) == ts {
        SplitAfterJoin(ts, d);
      }
    } else {
      var ts := BorderedWitness(d);
    }
  }

  /* ---------- The size of the array ---------- */

  predicate EndsWith(s: string, d: string) {
    |d| <= |s| && s[|s| - |d|..] == d
  }

  /** The first delimiter and a final one do not overlap when the delimiter has no border. */
  lemma {:induction false} EndsAfterFirst(s: string, d: string, k: nat)
    requires d != "" && Unbordered(d) && StrStr(s, d) == Some(k)
    ensures EndsWith(s, d) <==> s[k + |d|..] == "" || EndsWith(s[k + |d|..], d)
  {
    if EndsWith(s, d) && k < |s| - |d| < k + |d| {
      Overlap(s, d, k, |s| - |d|);
    }
  }

  lemma {:induction false} Overlap(s: string, d: string, i: nat, j: nat)
    requires OccursAt(s, d, i) && OccursAt(s, d, j) && i < j < i + |d|
    ensures !Unbordered(d)
  {
    var n := i + |d| - j;
    assert d[|d| - n..] == s[j..i + |d|] == d[..n];
  }

  /** The last piece is empty exactly for the empty string and for one that ends with the delimiter. */
  lemma {:induction false} LastPieceEmpty(s: string, d: string)
    requires d != "" && Unbordered(d)
    ensures var ps := Pieces(s, d);
            ps[|ps| - 1] == "" <==> s == "" || EndsWith(s, d)
    decreases |s|
  {
    match StrStr(s, d) {
      case None =>
        assert EndsWith(s, d) ==> OccursAt(s, d, |s| - |d|);
      case Some(k) =>
        LastPieceEmpty(s[k + |d|..], d);
        EndsAfterFirst(s, d, k);
    }
  }

  /** The len slots that strsplit allocates hold the tokens and the NULL exactly in these cases. */
  lemma {:induction false} AllocatedSlotsSuffice(s: string, d: string)
    requires d != ""
    ensures |Slots(s, d)| <= |Pieces(s, d)| <==> Pieces(s, d)[|Pieces(s, d)| - 1] == ""
    ensures Unbordered(d) ==> (|Slots(s, d)| <= |Pieces(s, d)| <==> s == "" || EndsWith(s, d))
  {
    if Unbordered(d) {
      LastPieceEmpty(s, d);
    }
  }
}
