/**
 The request parser of src/server/server.h. Where the C code reads a NULL or
 uninitialised pointer, or retries a header line for ever, there is no result: None.
 */
module Server {
  import opened Wrappers
  import opened StringSplit
  import opened DictTable
  import opened Dictionary
  import InfoByte

  const MAX_HEADERS := 50
  const MAX_PARAMS := 20

  /** A stored value is a char pointer that may be NULL. */
  type Value = Option<string>

  /** The body pointer: never assigned, NULL, or a copied string. */
  datatype Body = Unset | Null | Text(text: string)

  datatype Request = Request(info: bv8, path: string, headers: Dict<Value>, body: Body, query: Dict<Value>)

  /** A request with its dictionaries as values. */
  datatype Parsed = Parsed(info: bv8, path: string, headers: Table<Value>, body: Body, query: Table<Value>)

  /* ---------- parseHeader ---------- */

  /** Name and value around the first ": "; without one the second pointer is uninitialised. */
  function ParseHeader(str: string): Option<(string, string)> {
    match StrStr(str, ": ")
    case None => None
    case Some(k) => Some((str[..k], str[k + 2..]))
  }

  /* ---------- parseQueryStr ---------- */

  /** A parameter gives its key and, unless empty, what follows the first '='. */
  function ParamTokens(p: string): (ts: seq<string>)
    ensures |ts| <= 2
  {
    match StrStr(p, "=")
    case Some(k) => [p[..k]] + if p[k + 1..] == "" then [] else [p[k + 1..]]
    case None => if p == "" then [] else [p]
  }

  function Flatten(params: seq<string>): (ts: seq<string>)
    ensures |ts| <= 2 * |params|
  {
    if params == [] then []
    else Flatten(params[..|params| - 1]) + ParamTokens(params[|params| - 1])
  }

  /** The path and the text between the first and the second '?'; none where the second token is NULL. */
  function QueryParts(str: string): Option<(string, string)> {
    var tokens := Pieces(str, "?");
    if |tokens| < 2 || (|tokens| == 2 && tokens[1] == "") then None else Some((tokens[0], tokens[1]))
  }

  /** The parameters; none where the last token is NULL. */
  function QueryParams(query: string): Option<seq<string>> {
    var params := Pieces(query, "&");
    if params[|params| - 1] == "" then None else Some(params)
  }

  /** The path and the tokens of the parameters. */
  function QueryTokens(str: string): (r: Option<seq<string>>)
    ensures r.Some? ==> r.value != []
  {
    match QueryParts(str)
    case None => None
    case Some((path, query)) =>
      match QueryParams(query)
      case None => None
      case Some(params) => Some([path] + Flatten(params))
  }

  /** Writes the tokens of one parameter at j. */
  method PutParam(out: array<Option<string>>, j: nat, param: string) returns (j': nat)
    requires j + 2 <= out.Length
    modifies out
    ensures j <= j' <= j + 2 && out[..j'] == old(out[..j]) + NonNull(ParamTokens(param))
  {
    var subStr := param;
    j' := j;
    var tok := StrStr(subStr, "=");
    if tok.Some? {
      out[j'] := Some(subStr[..tok.value]);
      j' := j' + 1;
      subStr := subStr[tok.value + 1..];
    }
    if subStr != "" {
      out[j'] := Some(subStr);
      j' := j' + 1;
    }
  }

  lemma {:induction false} FlattenSnoc(params: seq<string>, i: nat)
    requires i < |params|
    ensures Flatten(params[..i + 1]) == Flatten(params[..i]) + ParamTokens(params[i])
  {
    assert params[..i + 1][..i] == params[..i];
  }

  lemma {:induction false} TokensSnoc(path: string, params: seq<string>, i: nat)
    requires i < |params|
    ensures NonNull([path] + Flatten(params[..i + 1])) ==
            NonNull([path] + Flatten(params[..i])) + NonNull(ParamTokens(params[i]))
  {
    FlattenSnoc(params, i);
    NonNullTail(path, Flatten(params[..i]), ParamTokens(params[i]));
  }

  lemma {:induction false} NonNullTail(path: string, a: seq<string>, b: seq<string>)
    ensures NonNull([path] + (a + b)) == NonNull([path] + a) + NonNull(b)
  {
    assert [path] + (a + b) == [path] + a + b;
    NonNullConcat([path] + a, b);
  }

  /** Writes the path, the tokens of every parameter, and the NULL terminator. */
  method WriteTokens(path: string, params: seq<string>) returns (slots: seq<Option<string>>, j: nat)
    ensures slots == Pointers([path] + Flatten(params)) && j == 1 + |Flatten(params)|
  {
    var out := new Option<string>[2 * |params| + 2](_ => None);
    out[0] := Some(path);
    j := 1;
    for i := 0 to |params|
      invariant j <= 2 * i + 1
      invariant out[..j] == NonNull([path] + Flatten(params[..i]))
    {
      TokensSnoc(path, params, i);
      j := PutParam(out, j, params[i]);
    }
    assert params[..|params|] == params;
    out[j] := None;
    slots := out[..j + 1];
  }

  predicate HasValue(param: string) {
    |ParamTokens(param)| == 2
  }

  lemma {:induction false} FlattenFull(params: seq<string>)
    requires forall i :: 0 <= i < |params| ==> HasValue(params[i])
    ensures |Flatten(params)| == 2 * |params|
    decreases |params|
  {
    if params != [] {
      FlattenFull(params[..|params| - 1]);
    }
  }

  lemma {:induction false} FlattenShort(params: seq<string>, i: nat)
    requires i < |params| && !HasValue(params[i])
    ensures |Flatten(params)| < 2 * |params|
    decreases |params|
  {
    if i < |params| - 1 {
      FlattenShort(params[..|params| - 1], i);
    }
  }

  /** The 2n + 1 slots that parseQueryStr allocates hold the tokens and the NULL exactly when some parameter has no value. */
  lemma {:induction false} QueryArraySuffices(params: seq<string>)
    ensures |Flatten(params)| + 2 <= 2 * |params| + 1 <==>
            exists i :: 0 <= i < |params| && !HasValue(params[i])
  {
    if i: nat :| i < |params| && !HasValue(params[i]) {
      FlattenShort(params, i);
    } else {
      FlattenFull(params);
    }
  }

  method SplitPath(str: string) returns (parts: Option<(string, string)>)
    ensures parts == QueryParts(str)
  {
    var tokens, len := StrSplit(str, "?");
    SlotAt(str, "?");
    if len < 2 || tokens[1].None? {
      return None;
    }
    return Some((tokens[0].value, tokens[1].value));
  }

  method SplitParams(query: string) returns (params: Option<seq<string>>)
    ensures params == QueryParams(query)
  {
    var tokens, count := StrSplit(query, "&");
    SlotAt(query, "&");
    if tokens[count - 1].None? {
      return None;
    }
    var ps := seq(count, i requires 0 <= i < count => tokens[i].value);
    assert ps == Pieces(query, "&");
    return Some(ps);
  }

  method ParseQueryStr(str: string) returns (result: Option<seq<Option<string>>>, num: nat)
    ensures result.Some? <==> QueryTokens(str).Some?
    ensures result.Some? ==> result.value == Pointers(QueryTokens(str).value) && num == |QueryTokens(str).value|
  {
    var parts := SplitPath(str);
    if parts.None? {
      return None, 0;
    }
    var params := SplitParams(parts.value.1);
    if params.None? {
      return None, 0;
    }
    var slots, j := WriteTokens(parts.value.0, params.value);
    return Some(slots), j;
  }

  /* ---------- parseRequest ---------- */

  function Filled(size: nat, ops: seq<Op<Value>>): Table<Value> {
    InitSound<Value>(size);
    Run(Init(size), ops)
  }

  /** setTuple on a dictionary that was filled by ops; a full dictionary ignores new keys. */
  method Store(dict: Dict<Value>, key: string, val: Value, ghost ops: seq<Op<Value>>)
    requires dict.Valid() && dict.Contents() == Filled(dict.size, ops)
    modifies dict, dict.table
    ensures dict.Valid() && dict.Contents() == Filled(dict.size, ops + [SetOp(key, val)])
  {
    InitSound<Value>(dict.size);
    assert (ops + [SetOp(key, val)])[..|ops|] == ops;
    var _ := dict.SetTuple(Some(key), val);
  }

  /** Keys at 1, 3, 5, ... with the token after each, which is NULL at the end. */
  function QueryOps(tokens: seq<string>): seq<Op<Value>> {
    seq(|tokens| / 2, k requires 0 <= k < |tokens| / 2 =>
      SetOp(tokens[2 * k + 1], if 2 * k + 2 < |tokens| then Some(tokens[2 * k + 2]) else None))
  }

  method FillQuery(query: Dict<Value>, slots: seq<Option<string>>, num: nat, ghost tokens: seq<string>)
    requires slots == Pointers(tokens) && num == |tokens|
    requires query.Valid() && query.Contents() == Init(query.size)
    modifies query, query.table
    ensures query.Valid() && query.Contents() == Filled(query.size, QueryOps(tokens))
  {
    ghost var ops := QueryOps(tokens);
    var i := 1;
    ghost var k := 0;
    while i < num
      invariant i == 2 * k + 1 && 0 <= k <= |ops|
      invariant query.Valid() && query.Contents() == Filled(query.size, ops[..k])
    {
      var key := slots[i].value;
      var val := slots[i + 1];
      assert ops[k] == SetOp(key, val);
      assert ops[..k + 1] == ops[..k] + [SetOp(key, val)];
      Store(query, key, val, ops[..k]);
      i := i + 2;
      k := k + 1;
    }
    assert ops[..k] == ops;
  }

  predicate AllHeaders(lines: seq<string>) {
    forall i :: 0 <= i < |lines| ==> ParseHeader(lines[i]).Some?
  }

  function HeaderOps(lines: seq<string>): seq<Op<Value>>
    requires AllHeaders(lines)
  {
    seq(|lines|, k requires 0 <= k < |lines| =>
      SetOp(ParseHeader(lines[k]).value.0, Some(ParseHeader(lines[k]).value.1)))
  }

  lemma {:induction false} HeaderOpsSnoc(lines: seq<string>, i: nat)
    requires i < |lines| && AllHeaders(lines[..i]) && ParseHeader(lines[i]).Some?
    ensures AllHeaders(lines[..i + 1])
    ensures HeaderOps(lines[..i + 1]) == HeaderOps(lines[..i]) +
              [SetOp(ParseHeader(lines[i]).value.0, Some(ParseHeader(lines[i]).value.1))]
  {
  }

  /** The pieces between the request line and the last two. */
  function HeaderLines(lines: seq<string>): seq<string>
    requires |lines| >= 2
  {
    if |lines| == 2 then [] else lines[1..|lines| - 2]
  }

  /** The loop over the tokens 1 to len - 3, which hold the header lines. */
  method FillHeaders(headers: Dict<Value>, tokens: seq<Option<string>>, ghost lines: seq<string>, len: nat)
    returns (ok: bool)
    requires headers.Valid() && headers.Contents() == Init(headers.size)
    requires len == |lines| >= 2 && |tokens| >= len - 1
    requires forall i :: 0 <= i < len - 1 ==> tokens[i] == Some(lines[i])
    modifies headers, headers.table
    ensures ok == AllHeaders(HeaderLines(lines))
    ensures ok ==> headers.Valid() && headers.Contents() == Filled(headers.size, HeaderOps(HeaderLines(lines)))
  {
    ghost var hs := HeaderLines(lines);
    var i := 1;
    while i < len - 2
      invariant 1 <= i <= |hs| + 1
      invariant AllHeaders(hs[..i - 1]) && headers.Valid()
      invariant headers.Contents() == Filled(headers.size, HeaderOps(hs[..i - 1]))
    {
      assert tokens[i].value == hs[i - 1];
      var header := ParseHeader(tokens[i].value);
      if header.None? {
        assert !AllHeaders(hs);
        return false;
      }
      HeaderOpsSnoc(hs, i - 1);
      Store(headers, header.value.0, Some(header.value.1), HeaderOps(hs[..i - 1]));
      i := i + 1;
    }
    assert hs[..i - 1] == hs;
    return true;
  }

  /** The pointer after the first empty token from i on. */
  function BodyFrom(slots: seq<Option<string>>, i: nat): Body
    requires i < |slots| && slots[|slots| - 1].None?
    decreases |slots| - i
  {
    if i == |slots| - 1 then Unset
    else if slots[i] == Some("") then (if slots[i + 1].Some? then Text(slots[i + 1].value) else Null)
    else BodyFrom(slots, i + 1)
  }

  method FindBody(tokens: seq<Option<string>>, len: nat) returns (body: Body)
    requires |tokens| - 1 <= len <= |tokens| && tokens != [] && tokens[|tokens| - 1].None?
    ensures body == BodyFrom(tokens, 0)
  {
    for i := 0 to len
      invariant i < |tokens| ==> BodyFrom(tokens, i) == BodyFrom(tokens, 0)
      invariant i == |tokens| ==> BodyFrom(tokens, 0) == Unset
    {
      if tokens[i].Some? && |tokens[i].value| == 0 {
        return if tokens[i + 1].Some? then Text(tokens[i + 1].value) else Null;
      }
    }
    return Unset;
  }

  /** Path and query table of a request target. */
  function ParseTarget(target: string): Option<(string, Table<Value>)> {
    if '?' !in target then Some((target, Filled(MAX_PARAMS, [])))
    else match QueryTokens(target)
      case None => None
      case Some(q) => Some((q[0], Filled(MAX_PARAMS, QueryOps(q))))
  }

  /** Info byte, path and query table of a request line. */
  function RequestHead(line: string): Option<(bv8, string, Table<Value>)> {
    var words := Present(Pieces(line, " "));
    if |words| < 3 then None
    else match ParseTarget(words[1])
      case None => None
      case Some((path, query)) => Some((InfoByte.Encode(words[2], words[0], 0), path, query))
  }

  /** What a request with these lines yields, given the token array they were split into. */
  function ParseLines(lines: seq<string>, slots: seq<Option<string>>): Option<Parsed>
    requires |lines| >= 2 && slots != [] && slots[|slots| - 1].None?
  {
    match RequestHead(lines[0])
    case None => None
    case Some((info, path, query)) =>
      var headerLines := HeaderLines(lines);
      if !AllHeaders(headerLines) then None
      else Some(Parsed(info, path, Filled(MAX_HEADERS, HeaderOps(headerLines)), BodyFrom(slots, 0), query))
  }

  /** What parsing a request yields. */
  function Parse(req: string): Option<Parsed> {
    var lines := Pieces(req, CRLF);
    if |lines| < 2 then None else ParseLines(lines, Slots(req, CRLF))
  }

  ghost predicate Represents(r: Request, p: Parsed)
    reads r.headers, r.headers.table, r.query, r.query.table
  {
    && r.headers.Valid() && r.query.Valid()
    && p == Parsed(r.info, r.path, r.headers.Contents(), r.body, r.query.Contents())
  }

  /** The path, and the query dictionary filled from the part after '?'. */
  method SplitTarget(target: string, query: Dict<Value>) returns (path: Option<string>)
    requires query.Valid() && query.size == MAX_PARAMS && query.Contents() == Init(MAX_PARAMS)
    modifies query, query.table
    ensures path.Some? <==> ParseTarget(target).Some?
    ensures path.Some? ==> query.Valid() && ParseTarget(target) == Some((path.value, query.Contents()))
  {
    if '?' !in target {
      return Some(target);
    }
    var slots, num := ParseQueryStr(target);
    if slots.None? {
      return None;
    }
    FillQuery(query, slots.value, num, QueryTokens(target).value);
    return Some(slots.value[0].value);
  }

  /** The non-NULL tokens of the request line. */
  method RequestWords(line: string) returns (words: seq<string>)
    ensures words == Present(Pieces(line, " "))
  {
    var tokens, _ := StrSplit(line, " ");
    words := seq(|tokens| - 1, i requires 0 <= i < |tokens| - 1 => tokens[i].value);
  }

  /** The request line: info byte, path and query dictionary. */
  method ParseHead(line: string, query: Dict<Value>) returns (head: Option<(bv8, string)>)
    requires query.Valid() && query.size == MAX_PARAMS && query.Contents() == Init(MAX_PARAMS)
    modifies query, query.table
    ensures head.Some? <==> RequestHead(line).Some?
    ensures head.Some? ==>
              query.Valid() && RequestHead(line) == Some((head.value.0, head.value.1, query.Contents()))
  {
    var words := RequestWords(line);
    if |words| < 3 {
      return None;
    }
    var path := SplitTarget(words[1], query);
    if path.None? {
      return None;
    }
    var info := InfoByte.EncodeProto(words[2], 0);
    info := InfoByte.EncodeMethod(words[0], info);
    info := InfoByte.EncodeReqmts(info);
    return Some((info, path.value));
  }

  /** The header lines and the body. */
  method ParseRest(headers: Dict<Value>, tokens: seq<Option<string>>, ghost lines: seq<string>, len: nat)
    returns (body: Option<Body>)
    requires headers.Valid() && headers.size == MAX_HEADERS && headers.Contents() == Init(MAX_HEADERS)
    requires len == |lines| >= 2 && len <= |tokens| <= len + 1 && tokens[|tokens| - 1].None?
    requires forall i :: 0 <= i < len - 1 ==> tokens[i] == Some(lines[i])
    modifies headers, headers.table
    ensures body.Some? <==> AllHeaders(HeaderLines(lines))
    ensures body.Some? ==>
              headers.Valid() && headers.Contents() == Filled(MAX_HEADERS, HeaderOps(HeaderLines(lines))) &&
              body.value == BodyFrom(tokens, 0)
  {
    var ok := FillHeaders(headers, tokens, lines, len);
    if !ok {
      return None;
    }
    var text := FindBody(tokens, len);
    return Some(text);
  }

  ghost predicate IsResult(r: Option<Request>, p: Option<Parsed>)
    reads if r.Some? then {r.value.headers, r.value.headers.table, r.value.query, r.value.query.table} else {}
  {
    (r.Some? <==> p.Some?) && (r.Some? ==> Represents(r.value, p.value))
  }

  method ParseTokens(tokens: seq<Option<string>>, ghost lines: seq<string>, len: nat) returns (r: Option<Request>)
    requires len == |lines| >= 2 && len <= |tokens| <= len + 1 && tokens[|tokens| - 1].None?
    requires forall i :: 0 <= i < len - 1 ==> tokens[i] == Some(lines[i])
    ensures IsResult(r, ParseLines(lines, tokens))
    ensures r.Some? ==> fresh(r.value.headers) && fresh(r.value.query)
  {
    var headers := new Dict<Value>(MAX_HEADERS);
    var query := new Dict<Value>(MAX_PARAMS);
    var head := ParseHead(tokens[0].value, query);
    if head.None? {
      return None;
    }
    var body := ParseRest(headers, tokens, lines, len);
    if body.None? {
      return None;
    }
    r := Some(Request(head.value.0, head.value.1, headers, body.value, query));
  }

  method ParseRequest(req: string) returns (r: Option<Request>)
    ensures IsResult(r, Parse(req))
    ensures r.Some? ==> fresh(r.value.headers) && fresh(r.value.query)
  {
    var tokens, len := StrSplit(req, CRLF);
    SlotAt(req, CRLF);
    if len < 2 {
      return None;
    }
    r := ParseTokens(tokens, Pieces(req, CRLF), len);
  }
}
