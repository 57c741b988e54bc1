/** What the parser of src/server/server.h makes of any request text, also one that no client of this project sends. */
module RequestMeaning {
  import opened Wrappers
  import opened StringSplit
  import opened DictTable
  import opened Server
  import opened RoundTrip
  import InfoByte

  /* ---------- Pieces ---------- */

  /** A delimiter character after a token that is free of it ends the first piece. */
  lemma {:induction false} FirstPiece(t: string, c: char, rest: string)
    requires c !in t
    ensures Pieces(t + [c] + rest, [c]) == [t] + Pieces(rest, [c])
  {
    CharFree(t, c);
    FirstDelimiter(t, [c], rest);
    var s := t + [c] + rest;
    assert s[..|t|] == t && s[|t| + 1..] == rest;
  }

  lemma {:induction false} OnlyPiece(t: string, c: char)
    requires c !in t
    ensures Pieces(t, [c]) == [t]
  {
    CharFree(t, c);
    NoDelimiter(t, [c]);
  }

  /** A token, then nothing or something after the delimiter. */
  lemma {:induction false} LeadingPiece(t: string, c: char, rest: string)
    requires c !in t && (rest == "" || rest[0] == c)
    ensures var ps := Pieces(t + rest, [c]);
            ps == if rest == "" then [t] else [t] + Pieces(rest[1..], [c])
  {
    if rest == "" {
      assert t + rest == t;
      OnlyPiece(t, c);
    } else {
      assert t + rest == t + [c] + rest[1..];
      FirstPiece(t, c, rest[1..]);
    }
  }

  /* ---------- Header lines ---------- */

  /** A header line is cut at its first ": ", and there is no result without one. */
  lemma {:induction false} HeaderIff(str: string, name: string, value: string)
    ensures ParseHeader(str) == Some((name, value)) <==> str == name + ": " + value && !Contains(name, ": ")
    ensures ParseHeader(str).None? <==> !Contains(str, ": ")
  {
    if str == name + ": " + value && !Contains(name, ": ") {
      FieldParses((name, value));
    }
    if ParseHeader(str) == Some((name, value)) {
      var k := StrStr(str, ": ").value;
      assert str == str[..k] + ": " + str[k + 2..];
      if i :| OccursAt(name, ": ", i) {
        assert OccursAt(str, ": ", i);
      }
    }
  }

  /* ---------- The query ---------- */

  /** A parameter with a '=' gives its key and, unless empty, its value; one without gives itself, unless empty. */
  lemma {:induction false} ParamMeans(key: string, value: string)
    requires '=' !in key
    ensures ParamTokens(key + "=" + value) == [key] + if value == "" then [] else [value]
    ensures ParamTokens(key) == if key == "" then [] else [key]
  {
    CharFree(key, '=');
    NoDelimiter(key, "=");
    FirstDelimiter(key, "=", value);
    var s := key + "=" + value;
    assert s[..|key|] == key && s[|key| + 1..] == value;
  }

  /** The stride-2 loop after the path: a key and its value, or a last key with NULL. */
  lemma {:induction false} StrideMeans(tokens: seq<string>, key: string, value: string)
    requires |tokens| % 2 == 1
    ensures |tokens| == 1 ==> QueryOps(tokens) == []
    ensures QueryOps(tokens + [key, value]) == QueryOps(tokens) + [SetOp(key, Some(value))]
    ensures QueryOps(tokens + [key]) == QueryOps(tokens) + [SetOp(key, None)]
  {
  }

  /** The path ends at the first '?', the query at the second; an empty query or one that ends with '&' has no result. */
  lemma {:induction false} TargetMeans(path: string, query: string, rest: string)
    requires '?' !in path && '?' !in query && (rest == "" || rest[0] == '?')
    ensures ParseTarget(path) == Some((path, Filled(20, [])))
    ensures ParseTarget(path + "?" + query + rest) ==
            if query == "" || query[|query| - 1] == '&' then None
            else Some((path, Filled(20, QueryOps([path] + Flatten(Pieces(query, "&"))))))
  {
    var target := path + "?" + query + rest;
    assert target[|path|] == '?';
    PartsMean(target, path, query, rest);
    LastParam(query);
  }

  lemma {:induction false} PartsMean(target: string, path: string, query: string, rest: string)
    requires '?' !in path && '?' !in query && (rest == "" || rest[0] == '?') && target == path + "?" + query + rest
    ensures QueryParts(target) == if query == "" && rest == "" then None else Some((path, query))
  {
    assert target == path + "?" + (query + rest);
    FirstPiece(path, '?', query + rest);
    LeadingPiece(query, '?', rest);
    TwoParts(target, Pieces(target, "?"), path, query, if rest == "" then [] else Pieces(rest[1..], "?"));
  }

  lemma {:induction false} TwoParts(target: string, tokens: seq<string>, path: string, query: string, more: seq<string>)
    requires tokens == Pieces(target, "?") && tokens == [path] + ([query] + more)
    ensures QueryParts(target) == if query == "" && more == [] then None else Some((path, query))
  {
  }

  lemma {:induction false} LastParam(query: string)
    ensures QueryParams(query) ==
            if query == "" || query[|query| - 1] == '&' then None else Some(Pieces(query, "&"))
  {
    LastPieceEmpty(query, "&");
  }

  /** A last parameter without '=' is stored with NULL, after the pairs before it. */
  lemma {:induction false} PlainParamIsNull(path: string, ps: seq<Pair>, key: string)
    requires '?' !in path && forall i :: 0 <= i < |ps| ==> GoodParam(ps[i]) && '?' !in ParamText(ps[i])
    requires key != "" && '=' !in key && '&' !in key && '?' !in key
    ensures ParseTarget(path + "?" + Join(ParamTexts(ps) + [key], "&")) ==
            Some((path, Filled(20, Sets(ps) + [SetOp(key, None)])))
  {
    var params := ParamTexts(ps) + [key];
    var query := Join(params, "&");
    PlainParamSplits(ps, key);
    NotLastEmpty(query, params);
    TargetMeans(path, query, "");
    assert path + "?" + query + "" == path + "?" + query;
    PlainParamTokens(path, ps, key);
  }

  lemma {:induction false} NotLastEmpty(query: string, params: seq<string>)
    requires params == Pieces(query, "&") && params[|params| - 1] != ""
    ensures query != "" && query[|query| - 1] != '&'
  {
    LastPieceEmpty(query, "&");
  }

  lemma {:induction false} PlainParamTokens(path: string, ps: seq<Pair>, key: string)
    requires key != "" && '=' !in key && forall i :: 0 <= i < |ps| ==> GoodParam(ps[i])
    ensures QueryOps([path] + Flatten(ParamTexts(ps) + [key])) == Sets(ps) + [SetOp(key, None)]
  {
    FlattenPlain(ParamTexts(ps), key);
    FlattenTokens(ps);
    StridePairs(path, ps);
    PlainStride(path, ps, AllTokens(ps), key);
  }

  lemma {:induction false} FlattenPlain(texts: seq<string>, key: string)
    requires key != "" && '=' !in key
    ensures Flatten(texts + [key]) == Flatten(texts) + [key]
  {
    var all := texts + [key];
    FlattenSnoc(all, |texts|);
    assert all[..|texts|] == texts && all[..|texts| + 1] == all;
    ParamMeans(key, "");
  }

  lemma {:induction false} PlainStride(path: string, ps: seq<Pair>, tokens: seq<string>, key: string)
    requires tokens == AllTokens(ps) && forall i :: 0 <= i < |ps| ==> ps[i].1 != ""
    ensures QueryOps([path] + (tokens + [key])) == QueryOps([path] + tokens) + [SetOp(key, None)]
  {
    AlternatingTokens(ps);
    StrideMeans([path] + tokens, key, "");
    assert [path] + (tokens + [key]) == [path] + tokens + [key];
  }

  lemma {:induction false} PlainParamSplits(ps: seq<Pair>, key: string)
    requires key != "" && '&' !in key && '?' !in key
    requires forall i :: 0 <= i < |ps| ==> GoodParam(ps[i]) && '?' !in ParamText(ps[i])
    ensures var query := Join(ParamTexts(ps) + [key], "&");
            Pieces(query, "&") == ParamTexts(ps) + [key] && '?' !in query
  {
    var params := ParamTexts(ps) + [key];
    forall t | t in params ensures !Contains(t, "&") && '?' !in t {
      var i :| 0 <= i < |params| && t == params[i];
      if i < |ps| {
        ParamSplits(ps[i]);
      }
      CharFree(t, '&');
    }
    SplitAfterJoin(params, "&");
    JoinAvoids(params, "&", '?');
  }

  lemma {:induction false} JoinAvoids(ts: seq<string>, d: string, c: char)
    requires ts != [] && c !in d && forall t :: t in ts ==> c !in t
    ensures c !in Join(ts, d)
  {
    if |ts| > 1 {
      JoinAvoids(ts[1..], d, c);
    }
  }

  /* ---------- The request line ---------- */

  /** The first three words count; what follows the third does not. */
  lemma {:induction false} HeadMeans(line: string, name: string, target: string, proto: string, rest: string)
    requires line == name + " " + target + " " + proto + rest
    requires ' ' !in name && ' ' !in target && ' ' !in proto && (if rest == "" then proto != "" else rest[0] == ' ')
    ensures RequestHead(line) ==
            match ParseTarget(target)
            case None => None
            case Some((path, query)) => Some((InfoByte.Encode(proto, name, 0), path, query))
  {
    assert line == name + " " + (target + " " + (proto + rest));
    FirstPiece(name, ' ', target + " " + (proto + rest));
    FirstPiece(target, ' ', proto + rest);
    LeadingPiece(proto, ' ', rest);
    ThreeWords(Pieces(line, " "), name, target, proto, if rest == "" then [] else Pieces(rest[1..], " "));
  }

  lemma {:induction false} ThreeWords(ps: seq<string>, a: string, b: string, c: string, more: seq<string>)
    requires ps == [a] + ([b] + ([c] + more)) && (more == [] ==> c != "")
    ensures var words := Present(ps);
            |words| >= 3 && words[0] == a && words[1] == b && words[2] == c
  {
  }

  /** With fewer than three words there is no result. */
  lemma {:induction false} HeadTooShort(name: string, target: string)
    requires ' ' !in name && ' ' !in target
    ensures RequestHead(name) == None
    ensures RequestHead(name + " " + target) == None
    ensures RequestHead(name + " " + target + " ") == None
  {
    OnlyPiece(name, ' ');
    FirstPiece(name, ' ', target);
    OnlyPiece(target, ' ');
    TwoWords(name, target);
  }

  lemma {:induction false} TwoWords(name: string, target: string)
    requires ' ' !in name && ' ' !in target
    ensures RequestHead(name + " " + target + " ") == None
  {
    assert name + " " + target + " " == name + " " + (target + " " + "");
    FirstPiece(name, ' ', target + " " + "");
    FirstPiece(target, ' ', "");
    OnlyPiece("", ' ');
  }

  /* ---------- The body ---------- */

  /** The body is what follows the first empty token: NULL after the last token, unset without an empty one. */
  ghost predicate BodyMeans(lines: seq<string>, body: Body)
    requires lines != []
  {
    var ts := Present(lines);
    if "" !in ts then body == Unset
    else exists j: nat :: FirstBlank(ts, j) && body == if j + 1 < |ts| then Text(ts[j + 1]) else Null
  }

  predicate FirstBlank(ts: seq<string>, j: nat) {
    j < |ts| && ts[j] == "" && forall i :: 0 <= i < j ==> ts[i] != ""
  }

  lemma {:induction false} BodyIs(lines: seq<string>, slots: seq<Option<string>>, i: nat)
    requires lines != [] && slots == Pointers(Present(lines)) && i < |slots|
    requires forall j :: 0 <= j < i ==> Present(lines)[j] != ""
    ensures BodyMeans(lines, BodyFrom(slots, i))
    decreases |slots| - i
  {
    var ts := Present(lines);
    if i < |ts| {
      assert slots[i] == Some(ts[i]);
      if ts[i] != "" {
        BodyIs(lines, slots, i + 1);
      } else {
        assert FirstBlank(ts, i);
        assert i + 1 < |ts| ==> slots[i + 1] == Some(ts[i + 1]);
        assert BodyFrom(slots, i) == if i + 1 < |ts| then Text(ts[i + 1]) else Null;
      }
    }
  }

  /* ---------- The whole request ---------- */

  /** The header lines: all but the request line and the last two pieces. */
  predicate HasFields(lines: seq<string>, fs: seq<Pair>) {
    if |lines| <= 3 then fs == [] else lines[1..|lines| - 2] == FieldLines(fs)
  }

  /**
   A text whose first line has three words and whose header lines have a name each: it is parsed
   exactly when its target is, into method, protocol, validity, path, query, headers and body.
   */
  lemma {:induction false} RequestMeans(req: string, lines: seq<string>, name: string, target: string, proto: string, rest: string, fs: seq<Pair>)
    requires lines == Pieces(req, CRLF) && |lines| >= 2 && lines[0] == name + " " + target + " " + proto + rest
    requires ' ' !in name && ' ' !in target && ' ' !in proto && (if rest == "" then proto != "" else rest[0] == ' ')
    requires HasFields(lines, fs) && forall i :: 0 <= i < |fs| ==> !Contains(fs[i].0, ": ")
    ensures Parse(req).Some? <==> ParseTarget(target).Some?
    ensures Parse(req).Some? ==>
              var p := Parse(req).value;
              && InfoMeans(p.info, name, proto)
              && (p.path, p.query) == ParseTarget(target).value
              && Shows(p.headers, MapRun(50, Sets(fs)))
              && BodyMeans(lines, p.body)
  {
    HeadMeans(lines[0], name, target, proto, rest);
    InfoRecovered(name, proto);
    LinesMean(lines, Slots(req, CRLF), fs);
    if ParseTarget(target).Some? {
      var (path, query) := ParseTarget(target).value;
      LinesParse(lines, Slots(req, CRLF), InfoByte.Encode(proto, name, 0), path, query);
    }
  }

  lemma {:induction false} LinesParse(lines: seq<string>, slots: seq<Option<string>>, info: bv8, path: string, query: Table<Value>)
    requires |lines| >= 2 && slots != [] && slots[|slots| - 1].None? && AllHeaders(HeaderLines(lines))
    requires RequestHead(lines[0]) == Some((info, path, query))
    ensures ParseLines(lines, slots) ==
            Some(Parsed(info, path, Filled(50, HeaderOps(HeaderLines(lines))), BodyFrom(slots, 0), query))
  {
  }

  lemma {:induction false} LinesMean(lines: seq<string>, slots: seq<Option<string>>, fs: seq<Pair>)
    requires |lines| >= 2 && slots == Pointers(Present(lines))
    requires HasFields(lines, fs) && forall i :: 0 <= i < |fs| ==> !Contains(fs[i].0, ": ")
    ensures AllHeaders(HeaderLines(lines))
    ensures Shows(Filled(50, HeaderOps(HeaderLines(lines))), MapRun(50, Sets(fs)))
    ensures BodyMeans(lines, BodyFrom(slots, 0))
  {
    FieldsParse(fs);
    FilledAgrees(50, Sets(fs));
    BodyIs(lines, slots, 0);
    assert HeaderLines(lines) == FieldLines(fs);
  }

  /** A text of one line, or with a header line that has no ": ", is not parsed. */
  lemma {:induction false} RequestFails(req: string, i: nat)
    requires |Pieces(req, CRLF)| < 2 || (1 <= i < |Pieces(req, CRLF)| - 2 && !Contains(Pieces(req, CRLF)[i], ": "))
    ensures Parse(req) == None
  {
    var lines := Pieces(req, CRLF);
    if |lines| >= 2 {
      HeaderIff(lines[i], "", "");
      assert HeaderLines(lines)[i - 1] == lines[i];
    }
  }
}
