/** The server's parser undoes the client's printer. */
module RoundTrip {
  import opened Wrappers
  import CTypes
  import opened StringSplit
  import opened DictTable
  import opened Server
  import opened Client
  import InfoByte
  import Numerals

  type Pair = (string, string)

  function FieldLine(f: Pair): string {
    f.0 + ": " + f.1
  }

  function FieldLines(fs: seq<Pair>): seq<string> {
    seq(|fs|, i requires 0 <= i < |fs| => FieldLine(fs[i]))
  }

  function ParamText(p: Pair): string {
    p.0 + "=" + p.1
  }

  function ParamTexts(ps: seq<Pair>): seq<string> {
    seq(|ps|, i requires 0 <= i < |ps| => ParamText(ps[i]))
  }

  /** The assignments that the pairs ask for, in order. */
  function Sets(ps: seq<Pair>): seq<Op<Value>> {
    seq(|ps|, i requires 0 <= i < |ps| => SetOp(ps[i].0, Some(ps[i].1)))
  }

  /* ---------- Characters as delimiters ---------- */

  lemma {:induction false} CharAt(s: string, c: char, i: int)
    ensures OccursAt(s, [c], i) <==> 0 <= i < |s| && s[i] == c
  {
  }

  lemma {:induction false} CharFree(s: string, c: char)
    requires c !in s
    ensures !Contains(s, [c])
  {
    forall i ensures !OccursAt(s, [c], i) {
      CharAt(s, c, i);
    }
  }

  lemma {:induction false} TwoAt(s: string, d: string, i: int)
    requires |d| == 2
    ensures OccursAt(s, d, i) <==> 0 <= i < |s| - 1 && s[i] == d[0] && s[i + 1] == d[1]
  {
  }

  /** A two-character delimiter is absent when one of its characters is. */
  lemma {:induction false} TwoFree(s: string, d: string)
    requires |d| == 2 && (d[0] !in s || d[1] !in s)
    ensures !Contains(s, d)
  {
  }

  lemma {:induction false} TwoUnbordered(d: string)
    requires |d| == 2 && d[0] != d[1]
    ensures Unbordered(d)
  {
  }

  /** Concatenation makes no new line break unless the break straddles the seam. */
  lemma {:induction false} FreeConcat(a: string, b: string)
    requires !Contains(a, CRLF) && !Contains(b, CRLF)
    requires a == "" || b == "" || a[|a| - 1] != '\r' || b[0] != '\n'
    ensures !Contains(a + b, CRLF)
  {
    forall i ensures !OccursAt(a + b, CRLF, i) {
      TwoAt(a + b, CRLF, i);
      TwoAt(a, CRLF, i);
      TwoAt(b, CRLF, i - |a|);
    }
  }

  /* ---------- Dictionaries ---------- */

  lemma {:induction false} SetsAreTopRun(t: Table<Value>, ops: seq<Op<Value>>)
    requires Sound(t) && forall i :: 0 <= i < |ops| ==> ops[i].SetOp?
    ensures TopRun(t, ops)
    decreases |ops|
  {
    if ops != [] {
      SetsAreTopRun(t, ops[..|ops| - 1]);
    }
  }

  /** A dictionary filled by assignments shows the bounded map of them. */
  lemma {:induction false} FilledAgrees(size: nat, ops: seq<Op<Value>>)
    requires forall i :: 0 <= i < |ops| ==> ops[i].SetOp?
    ensures Compact(Filled(size, ops)) && View(Filled(size, ops)) == MapRun(size, ops)
  {
    InitSound<Value>(size);
    SetsAreTopRun(Init(size), ops);
    RunAgrees(size, ops);
  }

  function LastWins(ps: seq<Pair>): map<string, Value> {
    if ps == [] then map[] else LastWins(ps[..|ps| - 1])[ps[|ps| - 1].0 := Some(ps[|ps| - 1].1)]
  }

  /** Within the size limit the bounded map is the plain one, where the last assignment wins. */
  lemma {:induction false} BoundedIsLastWins(size: nat, ps: seq<Pair>)
    requires |LastWins(ps).Keys| <= size
    ensures MapRun(size, Sets(ps)) == LastWins(ps)
    decreases |ps|
  {
    if ps != [] {
      var n := |ps| - 1;
      var before := LastWins(ps[..n]);
      var key := ps[n].0;
      assert LastWins(ps).Keys == before.Keys + {key};
      if key in before {
        assert LastWins(ps).Keys == before.Keys;
      }
      BoundedIsLastWins(size, ps[..n]);
      assert Sets(ps)[..n] == Sets(ps[..n]);
    }
  }

  /* ---------- The query ---------- */

  /** The key and the value keep clear of the separators they are cut at. */
  predicate CleanParam(p: Pair) {
    '=' !in p.0 && '&' !in p.0 && '&' !in p.1
  }

  predicate GoodParam(p: Pair) {
    CleanParam(p) && p.1 != ""
  }

  /** An empty value leaves no token. */
  function TokensOf(p: Pair): seq<string> {
    [p.0] + if p.1 == "" then [] else [p.1]
  }

  lemma {:induction false} ParamSplits(p: Pair)
    requires CleanParam(p)
    ensures ParamTokens(ParamText(p)) == TokensOf(p) && '&' !in ParamText(p) && ParamText(p) != ""
  {
    CharFree(p.0, '=');
    FirstDelimiter(p.0, "=", p.1);
    var s := p.0 + "=" + p.1;
    assert s[..|p.0|] == p.0 && s[|p.0| + 1..] == p.1;
  }

  function AllTokens(ps: seq<Pair>): (ts: seq<string>)
    ensures |ts| <= 2 * |ps|
  {
    if ps == [] then [] else AllTokens(ps[..|ps| - 1]) + TokensOf(ps[|ps| - 1])
  }

  lemma {:induction false} FlattenTokens(ps: seq<Pair>)
    requires forall i :: 0 <= i < |ps| ==> CleanParam(ps[i])
    ensures Flatten(ParamTexts(ps)) == AllTokens(ps)
    decreases |ps|
  {
    if ps != [] {
      var n := |ps| - 1;
      FlattenTokens(ps[..n]);
      assert ParamTexts(ps)[..n] == ParamTexts(ps[..n]);
      ParamSplits(ps[n]);
    }
  }

  /** Without empty values the tokens are key and value in turn. */
  lemma {:induction false} AlternatingTokens(ps: seq<Pair>)
    requires forall i :: 0 <= i < |ps| ==> ps[i].1 != ""
    ensures |AllTokens(ps)| == 2 * |ps|
    ensures forall i :: 0 <= i < |ps| ==> AllTokens(ps)[2 * i] == ps[i].0 && AllTokens(ps)[2 * i + 1] == ps[i].1
    decreases |ps|
  {
    if ps != [] {
      AlternatingTokens(ps[..|ps| - 1]);
    }
  }

  lemma {:induction false} AllTokensConcat(a: seq<Pair>, b: seq<Pair>)
    ensures AllTokens(a + b) == AllTokens(a) + AllTokens(b)
    decreases |b|
  {
    if b == [] {
      assert a + b == a;
    } else {
      var n := |b| - 1;
      assert (a + b)[..|a + b| - 1] == a + b[..n] && (a + b)[|a + b| - 1] == b[n];
      AllTokensConcat(a, b[..n]);
      ConcatAssociates(AllTokens(a), AllTokens(b[..n]), TokensOf(b[n]));
    }
  }

  lemma {:induction false} ConcatAssociates(a: seq<string>, b: seq<string>, c: seq<string>)
    ensures a + b + c == a + (b + c)
  {
  }

  /** Cutting the tokens at pair i. */
  lemma {:induction false} AllTokensAt(ps: seq<Pair>, i: nat)
    requires i < |ps|
    ensures AllTokens(ps) == AllTokens(ps[..i]) + TokensOf(ps[i]) + AllTokens(ps[i + 1..])
  {
    assert ps == ps[..i + 1] + ps[i + 1..];
    AllTokensConcat(ps[..i + 1], ps[i + 1..]);
    assert ps[..i + 1][..i] == ps[..i];
  }

  lemma {:induction false} StridePairs(path: string, ps: seq<Pair>)
    requires forall i :: 0 <= i < |ps| ==> ps[i].1 != ""
    ensures QueryOps([path] + AllTokens(ps)) == Sets(ps)
  {
    AlternatingTokens(ps);
    var tokens := [path] + AllTokens(ps);
    forall k | 0 <= k < |ps| ensures tokens[2 * k + 1] == ps[k].0 && tokens[2 * k + 2] == ps[k].1 {
      assert AllTokens(ps)[2 * k] == ps[k].0 && AllTokens(ps)[2 * k + 1] == ps[k].1;
    }
  }

  lemma {:induction false} NextTokens(ps: seq<Pair>, i: nat)
    requires i < |ps|
    ensures AllTokens(ps[i..]) == TokensOf(ps[i]) + AllTokens(ps[i + 1..])
  {
    AllTokensAt(ps[i..], 0);
    assert ps[i..][..0] == [] && ps[i..][1..] == ps[i + 1..];
  }

  /** What the tokens after the first empty value are. */
  lemma {:induction false} TokensAfterEmpty(ps: seq<Pair>, i: nat)
    requires i < |ps| && ps[i].1 == "" && forall j :: 0 <= j < i ==> ps[j].1 != ""
    ensures i == |ps| - 1 ==> |AllTokens(ps)| == 2 * i + 1
    ensures i < |ps| - 1 ==>
              |AllTokens(ps)| >= 2 * i + 2 && AllTokens(ps)[2 * i + 1] == ps[i + 1].0 &&
              if ps[i + 1].1 == "" then |AllTokens(ps)| <= 2 * |ps| - 2
              else |AllTokens(ps)| >= 2 * i + 3 && AllTokens(ps)[2 * i + 2] == ps[i + 1].1
  {
    AlternatingTokens(ps[..i]);
    AllTokensAt(ps, i);
    var before, after := AllTokens(ps[..i]), AllTokens(ps[i + 1..]);
    assert |before| == 2 * i && |AllTokens(ps)| == 2 * i + 1 + |after|;
    if i < |ps| - 1 {
      NextTokens(ps, i + 1);
      assert forall k :: 0 <= k < |after| ==> AllTokens(ps)[2 * i + 1 + k] == after[k];
      assert after[0] == ps[i + 1].0;
    }
  }

  /**
   The first empty value breaks the pairing: at the end it is stored as NULL; before the
   end the next key is taken for it, which shifts what follows.
   */
  lemma {:induction false} StrideBreaks(path: string, ps: seq<Pair>, i: nat)
    requires i < |ps| && ps[i].1 == "" && forall j :: 0 <= j < i ==> ps[j].1 != ""
    ensures QueryOps([path] + AllTokens(ps)) != Sets(ps)
  {
    var tokens := [path] + AllTokens(ps);
    var ops, sets := QueryOps(tokens), Sets(ps);
    TokensAfterEmpty(ps, i);
    if |ops| == |sets| {
      assert sets[i].val == Some("");
      if i == |ps| - 1 {
        assert ops[i].val == None;
      } else {
        assert ops[i].val == Some(ps[i + 1].0);
        assert sets[i + 1].key == ps[i + 1].0 && ops[i + 1].key == ps[i + 1].1;
      }
    }
  }

  /** The stride-2 loop pairs keys with their values exactly when no value is empty. */
  lemma {:induction false} StridePairsIff(path: string, ps: seq<Pair>)
    ensures QueryOps([path] + AllTokens(ps)) == Sets(ps) <==> forall i :: 0 <= i < |ps| ==> ps[i].1 != ""
  {
    if forall i :: 0 <= i < |ps| ==> ps[i].1 != "" {
      StridePairs(path, ps);
    } else {
      var i: nat :| i < |ps| && ps[i].1 == "";
      FirstEmpty(path, ps, i);
    }
  }

  lemma {:induction false} FirstEmpty(path: string, ps: seq<Pair>, i: nat)
    requires i < |ps| && ps[i].1 == ""
    ensures QueryOps([path] + AllTokens(ps)) != Sets(ps)
  {
    if j: nat :| j < i && ps[j].1 == "" {
      FirstEmpty(path, ps, j);
    } else {
      StrideBreaks(path, ps, i);
    }
  }

  lemma {:induction false} ParamsSplit(ps: seq<Pair>)
    requires ps != [] && forall i :: 0 <= i < |ps| ==> CleanParam(ps[i])
    ensures Pieces(Join(ParamTexts(ps), "&"), "&") == ParamTexts(ps)
    ensures ParamTexts(ps)[|ps| - 1] != "" && Join(ParamTexts(ps), "&") != ""
  {
    var params := ParamTexts(ps);
    forall t | t in params ensures !Contains(t, "&") {
      var i :| 0 <= i < |params| && t == params[i];
      ParamSplits(ps[i]);
      CharFree(t, '&');
    }
    SplitAfterJoin(params, "&");
    ParamSplits(ps[|ps| - 1]);
    ParamSplits(ps[0]);
    assert params[0] != "";
  }

  lemma {:induction false} TargetSplits(path: string, data: string)
    requires '?' !in path && '?' !in data
    ensures Pieces(path + "?" + data, "?") == [path, data]
  {
    CharFree(path, '?');
    CharFree(data, '?');
    assert Join([path, data], "?") == path + "?" + data;
    SplitAfterJoin([path, data], "?");
  }

  /** parseQueryStr returns the path followed by the tokens of the pairs. */
  lemma {:induction false} QueryParses(path: string, ps: seq<Pair>)
    requires ps != [] && forall i :: 0 <= i < |ps| ==> CleanParam(ps[i])
    requires '?' !in path && '?' !in Join(ParamTexts(ps), "&")
    ensures QueryTokens(path + "?" + Join(ParamTexts(ps), "&")) == Some([path] + AllTokens(ps))
    ensures (forall i :: 0 <= i < |ps| ==> GoodParam(ps[i])) ==> |AllTokens(ps)| == 2 * |ps|
  {
    ParamsSplit(ps);
    TargetSplits(path, Join(ParamTexts(ps), "&"));
    FlattenTokens(ps);
    if forall i :: 0 <= i < |ps| ==> GoodParam(ps[i]) {
      AlternatingTokens(ps);
    }
  }

  /** The stride-2 loop stores the bounded map of the pairs. */
  lemma {:induction false} TargetParses(path: string, ps: seq<Pair>)
    requires forall i :: 0 <= i < |ps| ==> GoodParam(ps[i])
    requires '?' !in path && (ps != [] ==> '?' !in Join(ParamTexts(ps), "&"))
    ensures var target := path + if ps == [] then "" else "?" + Join(ParamTexts(ps), "&");
            ParseTarget(target) == Some((path, Filled(MAX_PARAMS, Sets(ps))))
    ensures View(Filled(MAX_PARAMS, Sets(ps))) == MapRun(MAX_PARAMS, Sets(ps))
  {
    FilledAgrees(MAX_PARAMS, Sets(ps));
    if ps == [] {
      assert path + "" == path;
    } else {
      var data := Join(ParamTexts(ps), "&");
      QueryParses(path, ps);
      StridePairs(path, ps);
      assert path + ("?" + data) == path + "?" + data;
      assert (path + "?" + data)[|path|] == '?';
    }
  }

  /* ---------- The header fields ---------- */

  lemma {:induction false} FieldParses(f: Pair)
    requires !Contains(f.0, ": ")
    ensures ParseHeader(FieldLine(f)) == Some(f)
  {
    TwoUnbordered(": ");
    FirstDelimiter(f.0, ": ", f.1);
    var s := f.0 + ": " + f.1;
    assert s[..|f.0|] == f.0 && s[|f.0| + 2..] == f.1;
  }

  lemma {:induction false} FieldsParse(fs: seq<Pair>)
    requires forall i :: 0 <= i < |fs| ==> !Contains(fs[i].0, ": ")
    ensures AllHeaders(FieldLines(fs)) && HeaderOps(FieldLines(fs)) == Sets(fs)
    ensures View(Filled(MAX_HEADERS, Sets(fs))) == MapRun(MAX_HEADERS, Sets(fs))
  {
    var lines := FieldLines(fs);
    forall i | 0 <= i < |lines| ensures ParseHeader(lines[i]) == Some(fs[i]) {
      FieldParses(fs[i]);
    }
    FilledAgrees(MAX_HEADERS, Sets(fs));
  }

  /* ---------- The body ---------- */

  /** With lines, a blank line and a last piece, the last piece is the body. */
  lemma {:induction false} BodyFound(slots: seq<Option<string>>, lines: seq<string>, body: string, i: nat)
    requires slots == Pointers(Present(lines + ["", body])) && i <= |lines|
    requires forall j :: 0 <= j < |lines| ==> lines[j] != ""
    ensures BodyFrom(slots, i) == if body == "" then Null else Text(body)
    decreases |lines| - i
  {
    var all := lines + ["", body];
    assert all[|lines|] == "" && all[|lines| + 1] == body;
    if i < |lines| {
      assert slots[i] == Some(lines[i]);
      BodyFound(slots, lines, body, i + 1);
    }
  }

  /* ---------- The whole request ---------- */

  /** The header fields the client sends. */
  function Fields(args: Args, hs: seq<Pair>): seq<Pair>
    requires args.Valid()
  {
    [("Host", args.Host())] + hs + LengthFields(args)
  }

  function LengthFields(args: Args): seq<Pair>
    requires args.Valid()
  {
    if args.IsGet() || args.extra == [] then []
    else [("Content-Length", Numerals.Render(|args.Data()|, 10))]
  }

  /** No part before the body breaks a line, and nothing holds a separator that the parser looks for in it. */
  ghost predicate PrintableHead(args: Args, hs: seq<Pair>, ps: seq<Pair>) {
    && args.Valid()
    && !Contains(args.Method(), CRLF) && ' ' !in args.Method()
    && !Contains(args.Path(), CRLF) && ' ' !in args.Path() && '?' !in args.Path()
    && !Contains(args.Host(), CRLF)
    && args.Headers() == FieldLines(hs)
    && (forall i :: 0 <= i < |hs| ==> !Contains(hs[i].0, ": ") && !Contains(FieldLine(hs[i]), CRLF))
    && (forall i :: 0 <= i < |ps| ==> GoodParam(ps[i]))
    && (if args.IsGet()
        then args.Data() == (if ps == [] then "" else Join(ParamTexts(ps), "&")) &&
             !Contains(args.Data(), CRLF) && ' ' !in args.Data() && '?' !in args.Data()
        else ps == [])
  }

  ghost predicate Printable(args: Args, hs: seq<Pair>, ps: seq<Pair>) {
    PrintableHead(args, hs, ps) && !Contains(BodyText(args), CRLF)
  }

  lemma {:induction false} WordsSplit(a: string, b: string)
    requires ' ' !in a && ' ' !in b
    ensures Pieces(a + " " + b + " HTTP/1.0", " ") == [a, b, "HTTP/1.0"]
  {
    var words := [a, b, "HTTP/1.0"];
    CharFree(a, ' ');
    CharFree(b, ' ');
    CharFree("HTTP/1.0", ' ');
    assert words[1..] == [b, "HTTP/1.0"] && words[1..][1..] == ["HTTP/1.0"];
    assert Join(words[1..], " ") == b + " " + "HTTP/1.0";
    assert a + " " + b + " HTTP/1.0" == Join(words, " ");
    SplitAfterJoin(words, " ");
  }

  lemma {:induction false} LineFree(a: string, b: string)
    requires !Contains(a, CRLF) && !Contains(b, CRLF)
    ensures !Contains(a + " " + b + " HTTP/1.0", CRLF)
  {
    TwoFree(" ", CRLF);
    TwoFree(" HTTP/1.0", CRLF);
    FreeConcat(a, " ");
    FreeConcat(a + " ", b);
    FreeConcat(a + " " + b, " HTTP/1.0");
  }

  lemma {:induction false} RequestLineParses(args: Args, hs: seq<Pair>, ps: seq<Pair>)
    requires PrintableHead(args, hs, ps)
    ensures Pieces(RequestLine(args), " ") == [args.Method(), Target(args), "HTTP/1.0"]
    ensures !Contains(RequestLine(args), CRLF)
  {
    WordsSplit(args.Method(), Target(args));
    if args.IsGet() && args.Data() != "" {
      TwoFree("?", CRLF);
      FreeConcat("?", args.Data());
      FreeConcat(args.Path(), "?" + args.Data());
    } else {
      assert Target(args) == args.Path();
    }
    LineFree(args.Method(), Target(args));
  }

  lemma {:induction false} HostFieldFree(host: string)
    requires !Contains(host, CRLF)
    ensures !Contains("Host", ": ") && !Contains(FieldLine(("Host", host)), CRLF)
  {
    TwoFree("Host", ": ");
    TwoFree("Host: ", CRLF);
    FreeConcat("Host: ", host);
    assert "Host" + ": " == "Host: ";
  }

  lemma {:induction false} LengthFieldFree(n: nat)
    requires n <= CTypes.INT_MAX
    ensures !Contains("Content-Length", ": ") && !Contains(FieldLine(("Content-Length", Numerals.Render(n, 10))), CRLF)
  {
    var text := Numerals.Render(n, 10);
    Numerals.SignAndDigits(n, 10);
    assert Numerals.DigitValue('\r') == -1;
    TwoFree("Content-Length", ": ");
    TwoFree(text, CRLF);
    TwoFree("Content-Length: ", CRLF);
    FreeConcat("Content-Length: ", text);
    assert "Content-Length" + ": " == "Content-Length: ";
  }

  /** Every field line is free of line breaks and every field name of ": ". */
  lemma {:induction false} FieldsPrintable(args: Args, hs: seq<Pair>, ps: seq<Pair>, i: nat)
    requires PrintableHead(args, hs, ps) && i < |Fields(args, hs)|
    ensures !Contains(Fields(args, hs)[i].0, ": ") && !Contains(FieldLine(Fields(args, hs)[i]), CRLF)
  {
    if i == 0 {
      HostFieldFree(args.Host());
    } else if i > |hs| {
      LengthFieldFree(|args.Data()|);
    } else {
      assert Fields(args, hs)[i] == hs[i - 1];
    }
  }

  lemma {:induction false} FieldLinesConcat(a: seq<Pair>, b: seq<Pair>)
    ensures FieldLines(a + b) == FieldLines(a) + FieldLines(b)
  {
  }

  lemma {:induction false} OneFieldLine(name: string, value: string, start: string)
    requires start == name + ": "
    ensures FieldLines([(name, value)]) == [start + value]
  {
  }

  lemma {:induction false} Regroup(a: string, b: string, c: seq<string>, d: seq<string>)
    ensures [a, b] + c + d == [a] + ([b] + c + d)
  {
  }

  lemma {:induction false} HeadLinesAreFields(args: Args, hs: seq<Pair>)
    requires args.Valid() && args.Headers() == FieldLines(hs)
    ensures HeadLines(args) == [RequestLine(args)] + FieldLines(Fields(args, hs))
  {
    var first, length := [("Host", args.Host())], LengthFields(args);
    OneFieldLine("Host", args.Host(), "Host: ");
    OneFieldLine("Content-Length", Numerals.Render(|args.Data()|, 10), "Content-Length: ");
    FieldLinesConcat(first, hs);
    FieldLinesConcat(first + hs, length);
    Regroup(RequestLine(args), "Host: " + args.Host(), FieldLines(hs), FieldLines(length));
  }

  lemma {:induction false} JoinNested(ts: seq<string>, us: seq<string>, d: string)
    requires us != []
    ensures Join(ts + us, d) == Join(ts + [Join(us, d)], d)
  {
    if ts == [] {
      assert ts + us == us && ts + [Join(us, d)] == [Join(us, d)];
    } else {
      JoinNested(ts[1..], us, d);
      assert (ts + us)[1..] == ts[1..] + us;
      assert (ts + [Join(us, d)])[1..] == ts[1..] + [Join(us, d)];
    }
  }

  /** The lines before the body, among them the blank one. */
  function TopLines(args: Args, hs: seq<Pair>): seq<string>
    requires args.Valid()
  {
    [RequestLine(args)] + FieldLines(Fields(args, hs)) + [""]
  }

  lemma {:induction false} TopLinesFree(args: Args, hs: seq<Pair>, ps: seq<Pair>)
    requires PrintableHead(args, hs, ps)
    ensures forall t :: t in TopLines(args, hs) ==> !Contains(t, CRLF)
  {
    var lines := TopLines(args, hs);
    RequestLineParses(args, hs, ps);
    TwoFree("", CRLF);
    forall t | t in lines ensures !Contains(t, CRLF) {
      var i :| 0 <= i < |lines| && lines[i] == t;
      if 0 < i <= |Fields(args, hs)| {
        FieldsPrintable(args, hs, ps, i - 1);
      }
    }
  }

  /** The message splits back into its lines and the lines of its body. */
  lemma {:induction false} MessageSplits(args: Args, hs: seq<Pair>, ps: seq<Pair>)
    requires PrintableHead(args, hs, ps)
    ensures Message(args).Some?
    ensures Pieces(Message(args).value, CRLF) == TopLines(args, hs) + Pieces(BodyText(args), CRLF)
  {
    var top, body := TopLines(args, hs), BodyText(args);
    var lines := top + Pieces(body, CRLF);
    MessageIsJoin(args);
    HeadLinesAreFields(args, hs);
    assert HeadLines(args) + ["", body] == top + [body];
    JoinPieces(body, CRLF);
    JoinNested(top, Pieces(body, CRLF), CRLF);
    TopLinesFree(args, hs, ps);
    PiecesAreFree(body, CRLF);
    TwoUnbordered(CRLF);
    SplitAfterJoin(lines, CRLF);
  }

  /** A line break in the body makes the blank line a header line, which does not parse. */
  lemma {:induction false} BrokenBodyFails(args: Args, hs: seq<Pair>, ps: seq<Pair>)
    requires PrintableHead(args, hs, ps) && Contains(BodyText(args), CRLF)
    ensures Message(args).Some? && Parse(Message(args).value) == None
  {
    MessageSplits(args, hs, ps);
    var top, rest := TopLines(args, hs), Pieces(BodyText(args), CRLF);
    var lines, n := top + rest, |Fields(args, hs)|;
    assert |rest| >= 2;
    assert lines[n + 1] == "";
    assert HeaderLines(lines)[n] == "";
    assert ParseHeader("").None?;
  }

  /** The byte tells the method and the protocol, and whether both are supported. */
  predicate InfoMeans(info: bv8, name: string, proto: string) {
    && InfoByte.DecodeMethod(info) == InfoByte.Position(InfoByte.METHODS, name)
    && InfoByte.DecodeProto(info) == InfoByte.Position(InfoByte.PROTOCOLS, proto)
    && InfoByte.DecodeReqmts(info) == if name in InfoByte.METHODS && proto in InfoByte.PROTOCOLS then 1 else -1
  }

  /** What the server is to recover. */
  ghost predicate Recovered(args: Args, hs: seq<Pair>, ps: seq<Pair>, p: Parsed)
    requires args.Valid()
  {
    && InfoMeans(p.info, args.Method(), "HTTP/1.0")
    && p.path == args.Path()
    && p.query.counter <= |p.query.slots| && View(p.query) == MapRun(MAX_PARAMS, Sets(ps))
    && p.headers.counter <= |p.headers.slots| && View(p.headers) == MapRun(MAX_HEADERS, Sets(Fields(args, hs)))
    && p.body == if BodyText(args) == "" then Null else Text(BodyText(args))
  }

  lemma {:induction false} HeadParses(line: string, name: string, target: string, path: string, query: Table<Value>)
    requires Pieces(line, " ") == [name, target, "HTTP/1.0"] && ParseTarget(target) == Some((path, query))
    ensures RequestHead(line) == Some((InfoByte.Encode("HTTP/1.0", name, 0), path, query))
  {
    assert Present([name, target, "HTTP/1.0"]) == [name, target, "HTTP/1.0"];
  }

  lemma {:induction false} LinesAround(lines: seq<string>, line: string, fs: seq<Pair>, body: string)
    requires line != "" && lines == [line] + FieldLines(fs) + ["", body]
    ensures HeaderLines(lines) == FieldLines(fs)
    ensures BodyFrom(Pointers(Present(lines)), 0) == if body == "" then Null else Text(body)
  {
    var head := [line] + FieldLines(fs);
    forall j | 0 <= j < |head| ensures head[j] != "" {
      assert j > 0 ==> head[j] == FieldLine(fs[j - 1]);
    }
    BodyFound(Pointers(Present(lines)), head, body, 0);
  }

  /** Parsing the lines, once the request line is known to parse. */
  lemma {:induction false} FieldsAndBodyParse(lines: seq<string>, info: bv8, path: string, query: Table<Value>,
                                              line: string, fs: seq<Pair>, body: string)
    requires lines == [line] + FieldLines(fs) + ["", body]
    requires line != "" && RequestHead(line) == Some((info, path, query))
    requires forall i :: 0 <= i < |fs| ==> !Contains(fs[i].0, ": ")
    ensures ParseLines(lines, Pointers(Present(lines))) ==
            Some(Parsed(info, path, Filled(MAX_HEADERS, Sets(fs)), if body == "" then Null else Text(body), query))
  {
    FieldsParse(fs);
    LinesAround(lines, line, fs, body);
  }

  lemma {:induction false} FieldNamesFree(args: Args, hs: seq<Pair>, ps: seq<Pair>)
    requires PrintableHead(args, hs, ps)
    ensures forall i :: 0 <= i < |Fields(args, hs)| ==> !Contains(Fields(args, hs)[i].0, ": ")
  {
    forall i | 0 <= i < |Fields(args, hs)| ensures !Contains(Fields(args, hs)[i].0, ": ") {
      FieldsPrintable(args, hs, ps, i);
    }
  }

  lemma {:induction false} RequestHeadParses(args: Args, hs: seq<Pair>, ps: seq<Pair>)
    requires PrintableHead(args, hs, ps)
    ensures RequestHead(RequestLine(args)) ==
            Some((InfoByte.Encode("HTTP/1.0", args.Method(), 0), args.Path(), Filled(MAX_PARAMS, Sets(ps))))
  {
    RequestLineParses(args, hs, ps);
    TargetParses(args.Path(), ps);
    HeadParses(RequestLine(args), args.Method(), Target(args), args.Path(), Filled(MAX_PARAMS, Sets(ps)));
  }

  lemma {:induction false} MessageParses(args: Args, hs: seq<Pair>, ps: seq<Pair>)
    requires Printable(args, hs, ps)
    ensures Message(args).Some?
    ensures Parse(Message(args).value) ==
            Some(Parsed(InfoByte.Encode("HTTP/1.0", args.Method(), 0), args.Path(),
                        Filled(MAX_HEADERS, Sets(Fields(args, hs))),
                        if BodyText(args) == "" then Null else Text(BodyText(args)),
                        Filled(MAX_PARAMS, Sets(ps))))
  {
    var fs, body := Fields(args, hs), BodyText(args);
    var lines := [RequestLine(args)] + FieldLines(fs) + ["", body];
    MessageSplits(args, hs, ps);
    NoDelimiter(body, CRLF);
    assert TopLines(args, hs) + [body] == lines;
    RequestHeadParses(args, hs, ps);
    FieldNamesFree(args, hs, ps);
    FieldsAndBodyParse(lines, InfoByte.Encode("HTTP/1.0", args.Method(), 0), args.Path(),
                       Filled(MAX_PARAMS, Sets(ps)), RequestLine(args), fs, body);
  }

  /** Parsing undoes printing. */
  lemma {:induction false} ParseUndoesPrint(args: Args, hs: seq<Pair>, ps: seq<Pair>)
    requires Printable(args, hs, ps)
    ensures Message(args).Some? && Parse(Message(args).value).Some?
    ensures Recovered(args, hs, ps, Parse(Message(args).value).value)
  {
    MessageParses(args, hs, ps);
    RecoveredBy(args, hs, ps, Parse(Message(args).value).value);
  }

  lemma {:induction false} RecoveredBy(args: Args, hs: seq<Pair>, ps: seq<Pair>, p: Parsed)
    requires args.Valid() && p.info == InfoByte.Encode("HTTP/1.0", args.Method(), 0) && p.path == args.Path()
    requires p.headers == Filled(MAX_HEADERS, Sets(Fields(args, hs))) && p.query == Filled(MAX_PARAMS, Sets(ps))
    requires p.body == if BodyText(args) == "" then Null else Text(BodyText(args))
    ensures Recovered(args, hs, ps, p)
  {
    FilledAgrees(MAX_HEADERS, Sets(Fields(args, hs)));
    FilledAgrees(MAX_PARAMS, Sets(ps));
    InfoRecovered(args.Method(), "HTTP/1.0");
  }

  lemma {:induction false} InfoRecovered(name: string, proto: string)
    ensures InfoMeans(InfoByte.Encode(proto, name, 0), name, proto)
  {
    InfoByte.EncodedByteDecodes(proto, name, 0);
  }

  /** The parser gets a request back exactly when its body breaks no line. */
  lemma {:induction false} ParsesIffBodyUnbroken(args: Args, hs: seq<Pair>, ps: seq<Pair>)
    requires PrintableHead(args, hs, ps)
    ensures Message(args).Some?
    ensures Parse(Message(args).value).Some? <==> !Contains(BodyText(args), CRLF)
    ensures Parse(Message(args).value).Some? ==> Recovered(args, hs, ps, Parse(Message(args).value).value)
  {
    if Contains(BodyText(args), CRLF) {
      BrokenBodyFails(args, hs, ps);
    } else {
      ParseUndoesPrint(args, hs, ps);
    }
  }

  /* ---------- The round trip on the arguments as given ---------- */

  /** What the arguments before the body must keep clear of, without their defaults. */
  ghost predicate PlainArguments(host: string, name: string, path: string, extra: seq<string>, hs: seq<Pair>, ps: seq<Pair>) {
    && (extra != [] ==> |extra[0]| <= 0x7fff_ffff)
    && !Contains(name, CRLF) && ' ' !in name
    && !Contains(path, CRLF) && ' ' !in path && '?' !in path
    && !Contains(host, CRLF)
    && (if extra == [] then hs == [] else extra[1..] == FieldLines(hs))
    && (forall i :: 0 <= i < |hs| ==> !Contains(hs[i].0, ": ") && !Contains(FieldLine(hs[i]), CRLF))
    && (forall i :: 0 <= i < |ps| ==> GoodParam(ps[i]))
    && (if name != "GET" || extra == [] || extra[0] == "" then ps == []
        else ps != [] && extra[0] == Join(ParamTexts(ps), "&") &&
             !Contains(extra[0], CRLF) && ' ' !in extra[0] && '?' !in extra[0])
  }

  lemma {:induction false} PlainIsPrintable(host: string, name: string, path: string, extra: seq<string>, hs: seq<Pair>, ps: seq<Pair>)
    requires PlainArguments(host, name, path, extra, hs, ps)
    ensures PrintableHead(Args(host, name, path, extra), hs, ps)
  {
    TwoFree("POST", CRLF);
    TwoFree("/", CRLF);
    TwoFree("localhost", CRLF);
    TwoFree("", CRLF);
  }

  /**
   The server gets the arguments back, with the defaults for empty ones. The data is the query of
   a GET and the body of every other request, where a line break in it stops the parser.
   */
  lemma {:induction false} ArgumentsArrive(host: string, name: string, path: string, extra: seq<string>, hs: seq<Pair>, ps: seq<Pair>)
    requires PlainArguments(host, name, path, extra, hs, ps)
    ensures Args(host, name, path, extra).Valid() && Message(Args(host, name, path, extra)).Some?
    ensures var r := Parse(Message(Args(host, name, path, extra)).value);
            && (r.Some? <==> name == "GET" || extra == [] || !Contains(extra[0], CRLF))
            && (r.Some? ==>
                  && InfoMeans(r.value.info, if name == "" then "POST" else name, "HTTP/1.0")
                  && r.value.path == (if path == "" then "/" else path)
                  && Shows(r.value.query, MapRun(20, Sets(ps)))
                  && Shows(r.value.headers, MapRun(50, Sets(SentFields(host, name, extra, hs))))
                  && r.value.body == if name == "GET" || extra == [] || extra[0] == "" then Null else Text(extra[0]))
  {
    var args := Args(host, name, path, extra);
    PlainIsPrintable(host, name, path, extra, hs, ps);
    ParsesIffBodyUnbroken(args, hs, ps);
    TwoFree("", CRLF);
    assert Fields(args, hs) == SentFields(host, name, extra, hs);
  }

  /** The table answers lookups from the map. */
  predicate Shows(t: Table<Value>, m: map<string, Value>) {
    t.counter <= |t.slots| && View(t) == m
  }

  /** The header fields of the request. */
  function SentFields(host: string, name: string, extra: seq<string>, hs: seq<Pair>): seq<Pair>
    requires extra != [] ==> |extra[0]| <= 0x7fff_ffff
  {
    [("Host", if host == "" then "localhost" else host)] + hs +
    if name == "GET" || extra == [] then [] else [("Content-Length", Numerals.Render(|extra[0]|, 10))]
  }
}
