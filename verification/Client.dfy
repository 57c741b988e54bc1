/** The request builder in main of src/client/client_v2.c. */
module Client {
  import opened CTypes
  import opened Wrappers
  import opened StringSplit
  import Numerals

  /** The arguments host, method and path, and the optional ones: the data, then header lines. */
  datatype Args = Args(host: string, name: string, path: string, extra: seq<string>) {
    function Host(): string {
      if host == "" then "localhost" else host
    }

    function Path(): string {
      if path == "" then "/" else path
    }

    function Method(): string {
      if name == "" then "POST" else name
    }

    predicate IsGet() {
      name == "GET"
    }

    function Data(): string {
      if extra == [] then "" else extra[0]
    }

    function Headers(): seq<string> {
      if extra == [] then [] else extra[1..]
    }

    /** The data length is printed as a C int. */
    predicate Valid() {
      |Data()| <= INT_MAX
    }
  }

  function RequestLine(args: Args): string {
    args.Method() + " " + Target(args) + " HTTP/1.0"
  }

  function Target(args: Args): string {
    args.Path() + if args.IsGet() && args.Data() != "" then "?" + args.Data() else ""
  }

  /** The lines before the blank line. */
  function HeadLines(args: Args): seq<string>
    requires args.Valid()
  {
    [RequestLine(args), "Host: " + args.Host()] + args.Headers() +
    if args.IsGet() || args.extra == [] then []
    else ["Content-Length: " + Numerals.Render(|args.Data()|, 10)]
  }

  function BodyText(args: Args): string {
    if args.IsGet() then "" else args.Data()
  }

  function Terminated(lines: seq<string>): string {
    if lines == [] then "" else Terminated(lines[..|lines| - 1]) + lines[|lines| - 1] + CRLF
  }

  /** The request text; a query with a space ends the client instead. */
  function Message(args: Args): Option<string>
    requires args.Valid()
  {
    if args.IsGet() && ' ' in args.Data() then None
    else Some(Terminated(HeadLines(args)) + CRLF + BodyText(args))
  }

  /** The loop that appends the header arguments. */
  method AppendHeaders(start: string, headers: seq<string>) returns (message: string)
    ensures message == start + Terminated(headers)
  {
    message := start;
    for i := 0 to |headers|
      invariant message == start + Terminated(headers[..i])
    {
      assert headers[..i + 1][..i] == headers[..i];
      message := message + headers[i];
      message := message + CRLF;
    }
    assert headers[..|headers|] == headers;
  }

  /** The sprintf of the request line and the Host line. */
  function FirstLines(name: string, target: string, host: string): (text: string)
    ensures text == Terminated([name + " " + target + " HTTP/1.0", "Host: " + host])
  {
    TwoLines(name + " " + target + " HTTP/1.0", "Host: " + host);
    name + " " + target + " HTTP/1.0" + CRLF + ("Host: " + host) + CRLF
  }

  lemma {:induction false} TwoLines(a: string, b: string)
    ensures Terminated([a, b]) == a + CRLF + b + CRLF
  {
    assert [a, b][..1] == [a] && [a][..0] == [];
    assert Terminated([a]) == "" + a + CRLF;
  }

  /** The GET branch: the data is a query string. */
  method BuildGet(args: Args) returns (message: Option<string>)
    requires args.Valid() && args.IsGet()
    ensures message == Message(args)
  {
    TerminatedHead(args);
    var target := args.Path() + "";
    if args.extra != [] {
      if ' ' in args.extra[0] {
        return None;
      }
      target := args.Path() + if |args.extra[0]| > 0 then "?" + args.extra[0] else "";
    }
    var text := FirstLines(args.name, target, args.Host());
    text := AppendHeaders(text, args.Headers());
    assert text == Terminated(HeadLines(args));
    text := text + CRLF;
    assert text == Terminated(HeadLines(args)) + CRLF + BodyText(args);
    message := Some(text);
  }

  /** The other branch: the data is the body, announced by its length. */
  method BuildWithBody(args: Args) returns (message: string)
    requires args.Valid() && !args.IsGet()
    ensures message == Terminated(HeadLines(args)) + CRLF + BodyText(args)
  {
    TerminatedHead(args);
    message := FirstLines(if |args.name| > 0 then args.name else "POST", args.Path() + "", args.Host());
    message := AppendHeaders(message, args.Headers());
    if args.extra != [] {
      var length := Numerals.Itoa(|args.extra[0]|, 10);
      message := message + ("Content-Length: " + length + CRLF);
    }
    assert message == Terminated(HeadLines(args));
    message := message + CRLF;
    if args.extra != [] {
      message := message + args.extra[0];
    }
  }

  method BuildRequest(args: Args) returns (message: Option<string>)
    requires args.Valid()
    ensures message == Message(args)
  {
    if args.name == "GET" {
      message := BuildGet(args);
    } else {
      var text := BuildWithBody(args);
      message := Some(text);
    }
  }

  lemma {:induction false} TerminatedConcat(a: seq<string>, b: seq<string>)
    ensures Terminated(a + b) == Terminated(a) + Terminated(b)
    decreases |b|
  {
    if b == [] {
      assert a + b == a;
    } else {
      var n := |b| - 1;
      assert (a + b)[..|a + b| - 1] == a + b[..n];
      TerminatedConcat(a, b[..n]);
    }
  }

  lemma {:induction false} TerminatedHead(args: Args)
    requires args.Valid()
    ensures Terminated(HeadLines(args)) ==
            Terminated([RequestLine(args), "Host: " + args.Host()]) + Terminated(args.Headers()) +
            if args.IsGet() || args.extra == [] then ""
            else "Content-Length: " + Numerals.Render(|args.Data()|, 10) + CRLF
  {
    var first := [RequestLine(args), "Host: " + args.Host()];
    TerminatedConcat(first, args.Headers());
    if args.IsGet() || args.extra == [] {
      assert HeadLines(args) == first + args.Headers();
    } else {
      var last := "Content-Length: " + Numerals.Render(|args.Data()|, 10);
      TerminatedConcat(first + args.Headers(), [last]);
      assert Terminated([last]) == "" + last + CRLF;
    }
  }

  /* ---------- The text as joined lines ---------- */

  lemma {:induction false} JoinSnoc(ts: seq<string>, t: string, d: string)
    requires ts != []
    ensures Join(ts + [t], d) == Join(ts, d) + d + t
  {
    if |ts| > 1 {
      JoinSnoc(ts[1..], t, d);
      assert (ts + [t])[1..] == ts[1..] + [t];
    }
  }

  lemma {:induction false} TerminatedIsJoin(lines: seq<string>, t: string)
    ensures Terminated(lines) + t == Join(lines + [t], CRLF)
    decreases |lines|
  {
    if lines != [] {
      var n := |lines| - 1;
      TerminatedIsJoin(lines[..n], lines[n]);
      assert lines[..n] + [lines[n]] == lines;
      JoinSnoc(lines, t, CRLF);
    }
  }

  lemma {:induction false} TerminatedBlank(head: seq<string>)
    ensures Terminated(head + [""]) == Terminated(head) + CRLF
  {
    assert (head + [""])[..|head|] == head;
    assert Terminated(head) + "" == Terminated(head);
  }

  /** The message is its lines, a blank line and the body, joined by CRLF. */
  lemma {:induction false} MessageIsJoin(args: Args)
    requires args.Valid() && Message(args).Some?
    ensures Message(args).value == Join(HeadLines(args) + ["", BodyText(args)], CRLF)
  {
    var head, body := HeadLines(args), BodyText(args);
    TerminatedIsJoin(head + [""], body);
    TerminatedBlank(head);
    assert head + [""] + [body] == head + ["", body];
  }

  /* ---------- The text from the arguments as given ---------- */

  /** The first two lines as the format string has them. */
  lemma {:induction false} FirstLinesText(a: string, b: string, c: string)
    ensures Terminated([a + " " + b + " HTTP/1.0", "Host: " + c]) == a + " " + b + " HTTP/1.0\r\nHost: " + c + "\r\n"
  {
    TwoLines(a + " " + b + " HTTP/1.0", "Host: " + c);
    assert " HTTP/1.0\r\nHost: " == " HTTP/1.0" + CRLF + "Host: ";
  }

  lemma {:induction false} GetStart(path: string, query: string)
    ensures "GET" + " " + (path + query) == "GET " + path + query
  {
    assert "GET" + " " == "GET ";
  }

  lemma {:induction false} Ending(text: string)
    ensures text + "" + CRLF + "" == text + CRLF
  {
  }

  lemma {:induction false} Regrouped(a: string, b: string, c: string, d: string)
    ensures a + b + (c + d + CRLF) == a + (b + c + d + CRLF)
  {
  }

  /** A GET: the data is the query, and a space in it ends the client. */
  lemma {:induction false} GetText(host: string, path: string, extra: seq<string>)
    requires Args(host, "GET", path, extra).Valid()
    ensures Message(Args(host, "GET", path, extra)) ==
            if extra != [] && ' ' in extra[0] then None
            else Some("GET " + (if path == "" then "/" else path) +
                      (if extra == [] || extra[0] == "" then "" else "?" + extra[0]) +
                      " HTTP/1.0\r\nHost: " + (if host == "" then "localhost" else host) + "\r\n" +
                      (if extra == [] then "" else Terminated(extra[1..])) + "\r\n")
  {
    var args := Args(host, "GET", path, extra);
    TerminatedHead(args);
    FirstLinesText("GET", Target(args), args.Host());
    GetStart(args.Path(), if args.Data() == "" then "" else "?" + args.Data());
    var first := "GET" + " " + Target(args) + " HTTP/1.0\r\nHost: " + args.Host() + "\r\n";
    assert Terminated(HeadLines(args)) == first + Terminated(args.Headers()) + "";
    Ending(first + Terminated(args.Headers()));
  }

  /** Any other method: the data is the body, announced by its length. */
  lemma {:induction false} BodyMessageText(host: string, name: string, path: string, extra: seq<string>)
    requires Args(host, name, path, extra).Valid() && name != "GET"
    ensures Message(Args(host, name, path, extra)) ==
            Some((if name == "" then "POST" else name) + " " + (if path == "" then "/" else path) +
                 " HTTP/1.0\r\nHost: " + (if host == "" then "localhost" else host) + "\r\n" +
                 (if extra == [] then ""
                  else Terminated(extra[1..]) + "Content-Length: " + Numerals.Render(|extra[0]|, 10) + "\r\n") +
                 "\r\n" + (if extra == [] then "" else extra[0]))
  {
    var args := Args(host, name, path, extra);
    TerminatedHead(args);
    FirstLinesText(args.Method(), Target(args), args.Host());
    assert Target(args) == args.Path() + "" == args.Path();
    var first := args.Method() + " " + args.Path() + " HTTP/1.0\r\nHost: " + args.Host() + "\r\n";
    if extra == [] {
      assert Terminated(HeadLines(args)) == first + "" + "" == first + "";
    } else {
      Regrouped(first, Terminated(extra[1..]), "Content-Length: ", Numerals.Render(|extra[0]|, 10));
    }
  }
}
