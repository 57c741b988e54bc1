/** The loops sendall and readall of src/crypto/ssl_funcs.h, for every behaviour of the transport. */
module Transport {

  const DEF_READ := 87380     // SOCK_BUFF_DEF_READ
  const MAX_READ := 6291456   // SOCK_BUFF_MAX_READ

  /* ---------- sendall ---------- */

  /** The loop's variables, and the bytes the transport has taken. */
  datatype Sender = Sender(total: nat, bytesleft: int, n: int, done: bool, taken: string) {
    function Status(): int {
      if n < 0 then n else 0
    }
  }

  function SendInit(len: int): Sender {
    Sender(0, len, -1, 0 >= len, "")
  }

  predicate SendFacts(buf: string, len: int, s: Sender) {
    && len <= |buf| && s.total + s.bytesleft == len
    && (s.total == 0 || s.total <= len) && s.taken == buf[..s.total]
    && (!s.done ==> s.total < len)
    && (s.done ==> (s.Status() == 0 <==> len > 0 && s.total == len))
  }

  /** One write call returns n, which is an error code or the number of bytes taken. */
  function SendStep(buf: string, len: int, s: Sender, n: int): (s': Sender)
    requires SendFacts(buf, len, s) && !s.done && n <= s.bytesleft
    ensures SendFacts(buf, len, s')
  {
    if n < 0 then s.(n := n, done := true)
    else
      var s' := Sender(s.total + n, s.bytesleft - n, n, s.total + n >= len, s.taken + buf[s.total..s.total + n]);
      assert s'.taken == buf[..s'.total];
      s'
  }

  /** A write never takes more than it was offered. */
  predicate WritesFit(buf: string, len: int, s: Sender, results: seq<int>)
    requires SendFacts(buf, len, s)
    decreases |results|
  {
    s.done || results == [] ||
    (results[0] <= s.bytesleft && WritesFit(buf, len, SendStep(buf, len, s, results[0]), results[1..]))
  }

  /** The loop against a trace of results; it stops early when the trace ends. */
  function SendRun(buf: string, len: int, s: Sender, results: seq<int>): (s': Sender)
    requires SendFacts(buf, len, s) && WritesFit(buf, len, s, results)
    ensures SendFacts(buf, len, s')
    decreases |results|
  {
    if s.done || results == [] then s
    else SendRun(buf, len, SendStep(buf, len, s, results[0]), results[1..])
  }

  /** The sum of the first k results. */
  function Total(results: seq<int>, k: nat): int
    requires k <= |results|
  {
    if k == 0 then 0 else Total(results, k - 1) + results[k - 1]
  }

  /** None of the first k results is negative, and the sum is below len before each of them. */
  predicate Counted(len: int, results: seq<int>, k: nat)
    requires k <= |results|
  {
    forall i :: 0 <= i < k ==> results[i] >= 0 && Total(results, i) < len
  }

  /**
   The loop counts k results, none of them negative. It returns 0 once their sum reaches len, the
   code of a failing write, or -1 when len asks for no write; otherwise it waits for the next result.
   */
  ghost predicate SendEnds(len: int, results: seq<int>, k: nat, returned: bool, status: int, sent: int) {
    && k <= |results| && sent == Total(results, k)
    && Counted(len, results, k)
    && (if sent >= len then returned && status == (if len <= 0 then -1 else 0)
        else if k < |results| then results[k] < 0 && returned && status == results[k]
        else !returned)
  }

  lemma {:induction false} SendEndsFrom(buf: string, len: int, s: Sender, results: seq<int>, i: nat) returns (k: nat)
    requires SendFacts(buf, len, s) && i <= |results| && WritesFit(buf, len, s, results[i..])
    requires s.total == Total(results, i) && (s.done <==> s.total >= len)
    requires s.n == if i == 0 then -1 else results[i - 1]
    requires Counted(len, results, i)
    ensures var s' := SendRun(buf, len, s, results[i..]);
            SendEnds(len, results, k, s'.done, s'.Status(), s'.total)
    decreases |results| - i
  {
    if s.done || i == |results| {
      k := i;
    } else {
      assert results[i..][1..] == results[i + 1..];
      if results[i] < 0 {
        k := i;
      } else {
        k := SendEndsFrom(buf, len, SendStep(buf, len, s, results[i]), results, i + 1);
      }
    }
  }

  /** What sendall sends and returns, for every trace of write results. */
  lemma {:induction false} SendRunEnds(buf: string, len: int, results: seq<int>)
    requires len <= |buf| && WritesFit(buf, len, SendInit(len), results)
    ensures var s := SendRun(buf, len, SendInit(len), results);
            exists k: nat :: SendEnds(len, results, k, s.done, s.Status(), s.total)
  {
    assert results[0..] == results;
    var k := SendEndsFrom(buf, len, SendInit(len), results, 0);
  }

  /** A false returned means that the last write call never came back. */
  method SendAll(strbuf: string, len: int, results: seq<int>)
    returns (returned: bool, status: int, sent: nat, taken: string)
    requires len <= |strbuf| && WritesFit(strbuf, len, SendInit(len), results)
    ensures var s := SendRun(strbuf, len, SendInit(len), results);
            returned == s.done && sent == s.total && taken == s.taken && (returned ==> status == s.Status())
    ensures taken == strbuf[..sent]
    ensures returned ==> (status == 0 <==> len > 0 && sent == len)
    ensures exists k: nat :: SendEnds(len, results, k, returned, status, sent)
  {
    returned, status, sent, taken := SendLoop(strbuf, len, results);
    ghost var s := SendRun(strbuf, len, SendInit(len), results);
    SendRunEnds(strbuf, len, results);
    ghost var k: nat :| SendEnds(len, results, k, s.done, s.Status(), s.total);
    assert SendEnds(len, results, k, returned, status, sent);
  }

  method SendLoop(strbuf: string, len: int, results: seq<int>)
    returns (returned: bool, status: int, sent: nat, taken: string)
    requires len <= |strbuf| && WritesFit(strbuf, len, SendInit(len), results)
    ensures var s := SendRun(strbuf, len, SendInit(len), results);
            returned == s.done && sent == s.total && taken == s.taken && (returned ==> status == s.Status())
  {
    var total: nat, bytesleft, n, i := 0, len, -1, 0;
    taken := "";
    while total < len
      invariant 0 <= i <= |results|
      invariant var s := Sender(total, bytesleft, n, total >= len, taken);
                SendFacts(strbuf, len, s) && WritesFit(strbuf, len, s, results[i..]) &&
                SendRun(strbuf, len, s, results[i..]) == SendRun(strbuf, len, SendInit(len), results)
      decreases |results| - i
    {
      if i == |results| {
        return false, 0, total, taken;
      }
      n := results[i];
      assert results[i..][1..] == results[i + 1..];
      i := i + 1;
      if n < 0 {
        break;
      }
      taken := taken + strbuf[total..total + n];
      total := total + n;
      bytesleft := bytesleft - n;
    }
    return true, if n < 0 then n else 0, total, taken;
  }

  /* ---------- readall ---------- */

  type Chunk = s: string | |s| <= DEF_READ witness ""
  type ErrorCode = n: int | n < 0 witness -1

  /** What one read call does: deliver a chunk, empty at the end of the stream, or fail. */
  datatype ReadResult = Bytes(data: Chunk) | Failure(code: ErrorCode)

  /** The bytes in the buffer so far, the last result, and whether the loop has ended. */
  datatype Reader = Reader(buf: string, n: int, done: bool) {
    function Status(): int {
      if n < 0 then n else 0
    }
  }

  const READ_INIT := Reader("", 1, false)

  function ReadStep(r: Reader, res: ReadResult): Reader {
    match res
    case Failure(code) => r.(n := code, done := true)
    case Bytes(data) => Reader(r.buf + data, |data|, |r.buf| + |data| > MAX_READ || |data| == 0)
  }

  /** The loop ends for every stream of results: each further read adds at least one byte. */
  function ReadRun(stream: nat -> ReadResult, i: nat, r: Reader): (r': Reader)
    requires !r.done ==> |r.buf| <= MAX_READ
    ensures r'.done && (r.done || |r'.buf| <= MAX_READ + DEF_READ)
    ensures r.buf <= r'.buf
    decreases !r.done, MAX_READ - |r.buf|
  {
    if r.done then r else ReadRun(stream, i + 1, ReadStep(r, stream(i)))
  }

  method ReadAll(buf: array<char>, stream: nat -> ReadResult) returns (status: int, total: nat)
    requires buf.Length >= MAX_READ + DEF_READ
    modifies buf
    ensures var r := ReadRun(stream, 0, READ_INIT);
            total == |r.buf| && buf[..total] == r.buf && status == r.Status()
    ensures buf[total..] == old(buf[total..])
  {
    var n, going, i := 1, true, 0;
    total := 0;
    while going
      invariant 0 <= total <= buf.Length && 0 <= i && (going ==> total <= MAX_READ)
      invariant ReadRun(stream, i, Reader(buf[..total], n, !going)) == ReadRun(stream, 0, READ_INIT)
      invariant forall j :: total <= j < buf.Length ==> buf[j] == old(buf[j])
      decreases going, MAX_READ - total
    {
      ghost var before := buf[..total];
      match stream(i) {
        case Failure(code) =>
          n := code;
        case Bytes(data) =>
          n := |data|;
          Deliver(buf, total, data);
          total := total + n;
          assert buf[..total] == before + data;
      }
      going := !(n < 0 || total > MAX_READ) && n != 0;
      i := i + 1;
    }
    status := if n < 0 then n else 0;
  }

  /** The read call's write into the buffer, at an offset of at most MAX_READ. */
  method Deliver(buf: array<char>, at: nat, data: Chunk)
    requires at <= MAX_READ && buf.Length >= MAX_READ + DEF_READ
    modifies buf
    ensures buf[..at] == old(buf[..at])
    ensures buf[at..at + |data|] == data
    ensures forall j :: at + |data| <= j < buf.Length ==> buf[j] == old(buf[j])
  {
    for i := 0 to |data|
      invariant buf[..at] == old(buf[..at]) && buf[at..at + i] == data[..i]
      invariant forall j :: at + i <= j < buf.Length ==> buf[j] == old(buf[j])
    {
      buf[at + i] := data[i];
    }
  }

  /** The bytes that the first k read calls deliver. */
  function Received(stream: nat -> ReadResult, k: nat): string {
    if k == 0 then ""
    else Received(stream, k - 1) + if stream(k - 1).Bytes? then stream(k - 1).data else ""
  }

  /** After k non-empty chunks the loop ends: at a failure, at the end, or past the limit. */
  ghost predicate EndsAt(stream: nat -> ReadResult, k: nat, r: Reader) {
    && r.buf == Received(stream, k)
    && (forall i :: 0 <= i < k ==> stream(i).Bytes? && stream(i).data != "")
    && (forall i :: 0 <= i < k ==> |Received(stream, i)| <= MAX_READ)
    && (if |r.buf| > MAX_READ then r.Status() == 0
        else if r.Status() == 0 then stream(k) == Bytes("")
        else r.Status() < 0 && stream(k) == Failure(r.Status()))
  }

  lemma {:induction false} ReadEndsFrom(stream: nat -> ReadResult, i: nat, r: Reader) returns (k: nat)
    requires !r.done && r.buf == Received(stream, i) && |r.buf| <= MAX_READ
    requires forall j :: 0 <= j < i ==> stream(j).Bytes? && stream(j).data != ""
    requires forall j :: 0 <= j < i ==> |Received(stream, j)| <= MAX_READ
    ensures EndsAt(stream, k, ReadRun(stream, i, r))
    decreases MAX_READ - |r.buf|
  {
    var r' := ReadStep(r, stream(i));
    if stream(i).Failure? || stream(i).data == "" {
      k := i;
    } else if r'.done {
      k := i + 1;
    } else {
      k := ReadEndsFrom(stream, i + 1, r');
    }
  }

  /** What readall leaves in the buffer and returns, for every stream. */
  lemma {:induction false} ReadEnds(stream: nat -> ReadResult)
    ensures exists k: nat :: EndsAt(stream, k, ReadRun(stream, 0, READ_INIT))
  {
    var k := ReadEndsFrom(stream, 0, READ_INIT);
  }
}
