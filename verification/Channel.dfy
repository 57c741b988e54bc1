/**
 sendall and readall at the two ends of a first-in first-out byte channel: every
 interleaving of their steps, and every size of chunk written or read.
 */
module Channel {
  import opened Wrappers
  import opened Transport

  /** The two loops, the bytes on the wire, and whether the writing end has closed. */
  datatype Link = Link(sender: Sender, reader: Reader, wire: string, closed: bool)

  /** The sizes of what one call writes or reads; a read of size 0 sees the end of the stream. */
  datatype Event = Write(n: nat) | Close | Read(n: nat)

  function Start(msg: string): Link {
    Link(SendInit(|msg|), READ_INIT, "", false)
  }

  /** What holds in every reachable state. */
  predicate Consistent(msg: string, l: Link) {
    && SendFacts(msg, |msg|, l.sender) && 0 <= l.sender.total <= |msg|
    && l.reader.buf + l.wire == l.sender.taken
    && (l.sender.done ==> l.sender.total == |msg|)
    && (l.closed ==> l.sender.done)
    && l.reader.n >= 0
    && (if l.reader.done then |l.reader.buf| > MAX_READ || (l.closed && l.wire == "") else |l.reader.buf| <= MAX_READ)
  }

  predicate Enabled(l: Link, e: Event) {
    match e
    case Write(n) => !l.sender.done && 1 <= n <= l.sender.bytesleft
    case Close => l.sender.done && !l.closed
    case Read(n) => !l.reader.done && n <= |l.wire| && n <= DEF_READ && (n == 0 ==> l.closed && l.wire == "")
  }

  /** One step: a write puts bytes on the wire, a read takes them off. */
  function Apply(msg: string, l: Link, e: Event): (l': Link)
    requires Consistent(msg, l) && Enabled(l, e)
    ensures Consistent(msg, l') && Remaining(msg, l') < Remaining(msg, l)
  {
    match e
    case Write(n) => ApplyWrite(msg, l, n)
    case Close => l.(closed := true)
    case Read(n) => ApplyRead(msg, l, n)
  }

  function ApplyWrite(msg: string, l: Link, n: nat): (l': Link)
    requires Consistent(msg, l) && Enabled(l, Write(n))
    ensures Consistent(msg, l') && Remaining(msg, l') < Remaining(msg, l)
  {
    var bytes := msg[l.sender.total..l.sender.total + n];
    assert l.reader.buf + (l.wire + bytes) == l.sender.taken + bytes;
    l.(sender := SendStep(msg, |msg|, l.sender, n), wire := l.wire + bytes)
  }

  function ApplyRead(msg: string, l: Link, n: nat): (l': Link)
    requires Consistent(msg, l) && Enabled(l, Read(n))
    ensures Consistent(msg, l') && Remaining(msg, l') < Remaining(msg, l)
  {
    assert l.reader.buf + l.wire[..n] + l.wire[n..] == l.reader.buf + l.wire;
    l.(reader := ReadStep(l.reader, Bytes(l.wire[..n])), wire := l.wire[n..])
  }

  /** Bytes still to write and to read, and ends still to be noticed. */
  function Remaining(msg: string, l: Link): nat
    requires Consistent(msg, l)
  {
    l.sender.bytesleft + (if l.closed then 0 else 1) +
    (|msg| - |l.reader.buf|) + (if l.reader.done then 0 else 1)
  }

  /** The state after a run of events, if they can happen in this order. */
  function Exec(msg: string, l: Link, events: seq<Event>): (r: Option<Link>)
    requires Consistent(msg, l)
    ensures r.Some? ==> Consistent(msg, r.value) && Remaining(msg, r.value) + |events| <= Remaining(msg, l)
    decreases |events|
  {
    if events == [] then Some(l)
    else if Enabled(l, events[0]) then Exec(msg, Apply(msg, l, events[0]), events[1..])
    else None
  }

  /** Both loops have returned 0 and the reader's buffer is the message. */
  predicate Delivered(msg: string, l: Link) {
    && l.sender.done && l.sender.Status() == 0
    && l.reader.done && l.reader.Status() == 0
    && l.reader.buf == msg
  }

  predicate Finished(l: Link) {
    l.sender.done && l.reader.done
  }

  /** Until both loops have returned, some step can happen. */
  lemma {:induction false} NoDeadlock(msg: string, l: Link)
    requires Consistent(msg, l) && !Finished(l)
    ensures exists e :: Enabled(l, e)
  {
    if !l.sender.done {
      assert Enabled(l, Write(1));
    } else if l.wire != "" {
      assert Enabled(l, Read(1));
    } else if l.closed {
      assert Enabled(l, Read(0));
    } else {
      assert Enabled(l, Close);
    }
  }

  /** Messages that every run delivers: the reader gives up only past MAX_READ bytes. */
  predicate Deliverable(msg: string) {
    1 <= |msg| <= 6291457
  }

  /** Every run is short, can go on until both loops have returned, and then has delivered. */
  lemma {:induction false} Delivery(msg: string, events: seq<Event>)
    requires Deliverable(msg) && Exec(msg, Start(msg), events).Some?
    ensures |events| <= 2 * |msg| + 2
    ensures var l := Exec(msg, Start(msg), events).value;
            if Finished(l) then Delivered(msg, l) else exists e :: Enabled(l, e)
  {
    var l := Exec(msg, Start(msg), events).value;
    if Finished(l) {
      assert l.reader.buf + l.wire == msg;
      assert l.wire == "";
    } else {
      NoDeadlock(msg, l);
    }
  }

  /* ---------- The exact limit ---------- */

  function OneByOne(k: nat): seq<Event> {
    seq(k, _ => Read(1))
  }

  /** Reading byte by byte up to a total of at most MAX_READ + 1. */
  lemma {:induction false} ReadOneByOne(msg: string, l: Link, k: nat)
    requires Consistent(msg, l) && k <= |l.wire|
    requires k > 0 ==> !l.reader.done && |l.reader.buf| + k <= MAX_READ + 1
    ensures var r := Exec(msg, l, OneByOne(k));
            r.Some? && r.value.sender == l.sender &&
            |r.value.reader.buf| == |l.reader.buf| + k &&
            (k > 0 ==> (r.value.reader.done <==> |l.reader.buf| + k > MAX_READ))
    decreases k
  {
    if k > 0 {
      assert OneByOne(k)[1..] == OneByOne(k - 1);
      assert OneByOne(k)[0] == Read(1) && Enabled(l, Read(1));
      ReadOneByOne(msg, Apply(msg, l, Read(1)), k - 1);
    }
  }

  /** A longer message has a run in which both loops return 0 and bytes are missing. */
  lemma {:induction false} TruncatingRun(msg: string) returns (events: seq<Event>)
    requires |msg| > MAX_READ + 1
    ensures var r := Exec(msg, Start(msg), events);
            r.Some? && Finished(r.value) &&
            r.value.sender.Status() == 0 && r.value.reader.Status() == 0 && r.value.reader.buf != msg
  {
    var k := MAX_READ + 1;
    var l := Start(msg);
    assert Enabled(l, Write(|msg|));
    var l' := Apply(msg, l, Write(|msg|));
    ReadOneByOne(msg, l', k);
    events := [Write(|msg|)] + OneByOne(k);
    assert events[1..] == OneByOne(k);
  }

  /** The empty message: sendall makes no call and returns -1, although the reader returns 0. */
  lemma {:induction false} EmptyMessageRun(msg: string) returns (events: seq<Event>)
    requires |msg| == 0
    ensures var r := Exec(msg, Start(msg), events);
            r.Some? && Finished(r.value) && r.value.sender.Status() == -1 && r.value.reader.Status() == 0
  {
    events := CloseAndRead(msg, Start(msg));
  }

  /** A sender that has returned closes, and a reader with nothing on the wire sees the end. */
  lemma {:induction false} CloseAndRead(msg: string, l: Link) returns (events: seq<Event>)
    requires Consistent(msg, l) && l.sender.done && !l.closed && !l.reader.done && l.wire == ""
    ensures var r := Exec(msg, l, events);
            r.Some? && Finished(r.value) && r.value.sender == l.sender && r.value.reader.Status() == 0
  {
    var end := [Read(0)];
    events := [Close] + end;
    assert Enabled(l, events[0]) && events[1..] == end;
    ReadEnd(msg, Apply(msg, l, Close), end);
  }

  lemma {:induction false} ReadEnd(msg: string, l: Link, events: seq<Event>)
    requires Consistent(msg, l) && l.closed && l.wire == "" && !l.reader.done && events == [Read(0)]
    ensures var r := Exec(msg, l, events);
            r.Some? && r.value.sender == l.sender && r.value.reader.done && r.value.reader.Status() == 0
  {
    assert Enabled(l, events[0]);
    assert events[1..] == [];
  }

  /** Every finished run delivers the message exactly when its length is in range. */
  lemma {:induction false} DeliveryIff(msg: string)
    ensures Deliverable(msg) <==>
            forall events :: Exec(msg, Start(msg), events).Some? && Finished(Exec(msg, Start(msg), events).value)
                             ==> Delivered(msg, Exec(msg, Start(msg), events).value)
  {
    if Deliverable(msg) {
      forall events | Exec(msg, Start(msg), events).Some? && Finished(Exec(msg, Start(msg), events).value)
        ensures Delivered(msg, Exec(msg, Start(msg), events).value)
      {
        Delivery(msg, events);
      }
    } else if msg == "" {
      var events := EmptyMessageRun(msg);
    } else {
      var events := TruncatingRun(msg);
    }
  }

  /* ---------- Every way to cut the message ---------- */

  function Sum(ns: seq<nat>): nat {
    if ns == [] then 0 else ns[0] + Sum(ns[1..])
  }

  function WriteAll(ns: seq<nat>): seq<Event> {
    seq(|ns|, i requires 0 <= i < |ns| => Write(ns[i]))
  }

  function ReadAllOf(ns: seq<nat>): seq<Event> {
    seq(|ns|, i requires 0 <= i < |ns| => Read(ns[i]))
  }

  lemma {:induction false} WritesHappen(msg: string, l: Link, ns: seq<nat>)
    requires Consistent(msg, l) && (forall i :: 0 <= i < |ns| ==> ns[i] >= 1)
    requires l.sender.total + Sum(ns) == |msg| && (ns == [] ==> l.sender.done) && !l.closed && !l.reader.done && l.reader.buf == ""
    ensures var r := Exec(msg, l, WriteAll(ns));
            r.Some? && r.value.sender.done && r.value.reader == l.reader && !r.value.closed && r.value.wire == msg
    decreases |ns|
  {
    if ns == [] {
      assert l.wire == l.reader.buf + l.wire == msg;
    } else {
      assert WriteAll(ns)[1..] == WriteAll(ns[1..]);
      assert l.sender.total < |msg|;
      assert Enabled(l, Write(ns[0]));
      WritesHappen(msg, Apply(msg, l, Write(ns[0])), ns[1..]);
    }
  }

  lemma {:induction false} ReadsHappen(msg: string, l: Link, ns: seq<nat>)
    requires Consistent(msg, l) && l.sender.done && !l.closed && !l.reader.done
    requires |msg| <= MAX_READ && Sum(ns) == |l.wire| && (forall i :: 0 <= i < |ns| ==> 1 <= ns[i] <= DEF_READ)
    ensures var r := Exec(msg, l, ReadAllOf(ns));
            r.Some? && r.value.sender == l.sender && !r.value.closed && !r.value.reader.done && r.value.wire == ""
    decreases |ns|
  {
    if ns != [] {
      assert ReadAllOf(ns)[1..] == ReadAllOf(ns[1..]);
      assert Enabled(l, Read(ns[0]));
      ReadsHappen(msg, Apply(msg, l, Read(ns[0])), ns[1..]);
    }
  }

  lemma {:induction false} ExecConcat(msg: string, l: Link, a: seq<Event>, b: seq<Event>)
    requires Consistent(msg, l) && Exec(msg, l, a).Some?
    ensures Exec(msg, l, a + b) == Exec(msg, Exec(msg, l, a).value, b)
    decreases |a|
  {
    if a == [] {
      assert a + b == b;
    } else {
      assert (a + b)[1..] == a[1..] + b;
      ExecConcat(msg, Apply(msg, l, a[0]), a[1..], b);
    }
  }

  /** Every cut of the message into writes and every cut of it into reads is a run that delivers it. */
  lemma {:induction false} EveryCutDelivers(msg: string, ws: seq<nat>, rs: seq<nat>) returns (events: seq<Event>)
    requires 1 <= |msg| <= 6291456 && Sum(ws) == Sum(rs) == |msg|
    requires (forall i :: 0 <= i < |ws| ==> ws[i] >= 1) && (forall i :: 0 <= i < |rs| ==> 1 <= rs[i] <= 87380)
    ensures WriteAll(ws) + ReadAllOf(rs) <= events
    ensures var r := Exec(msg, Start(msg), events);
            r.Some? && Finished(r.value) && Delivered(msg, r.value)
  {
    WritesHappen(msg, Start(msg), ws);
    var l1 := Exec(msg, Start(msg), WriteAll(ws)).value;
    ReadsHappen(msg, l1, rs);
    var l2 := Exec(msg, l1, ReadAllOf(rs)).value;
    var end := CloseAndRead(msg, l2);
    ExecConcat(msg, Start(msg), WriteAll(ws), ReadAllOf(rs));
    ExecConcat(msg, Start(msg), WriteAll(ws) + ReadAllOf(rs), end);
    events := WriteAll(ws) + ReadAllOf(rs) + end;
    Delivery(msg, events);
  }

  /* ---------- The link's ends are the two loops ---------- */

  /** What the write calls of a run return. */
  function Writes(events: seq<Event>): seq<int> {
    if events == [] then []
    else (if events[0].Write? then [events[0].n] else []) + Writes(events[1..])
  }

  /** What the read calls of a run deliver. */
  function Chunks(msg: string, l: Link, events: seq<Event>): seq<ReadResult>
    requires Consistent(msg, l) && Exec(msg, l, events).Some?
    decreases |events|
  {
    if events == [] then []
    else
      (if events[0].Read? then [Bytes(l.wire[..events[0].n])] else []) +
      Chunks(msg, Apply(msg, l, events[0]), events[1..])
  }

  /** sendall, given the write results of the run, ends where the link's sender does. */
  lemma {:induction false} SenderIsSendAll(msg: string, l: Link, events: seq<Event>)
    requires Consistent(msg, l) && Exec(msg, l, events).Some?
    ensures WritesFit(msg, |msg|, l.sender, Writes(events))
    ensures SendRun(msg, |msg|, l.sender, Writes(events)) == Exec(msg, l, events).value.sender
    decreases |events|
  {
    if events != [] {
      var l', rest := Apply(msg, l, events[0]), Writes(events[1..]);
      SenderIsSendAll(msg, l', events[1..]);
      if events[0].Write? {
        assert Writes(events)[0] == events[0].n && Writes(events)[1..] == rest;
        assert l'.sender == SendStep(msg, |msg|, l.sender, events[0].n);
      } else {
        assert Writes(events) == rest;
        assert l'.sender == l.sender;
      }
    }
  }

  /** The stream continues with these chunks from call number i on. */
  ghost predicate StreamsFrom(stream: nat -> ReadResult, i: nat, chunks: seq<ReadResult>) {
    forall j :: i <= j < i + |chunks| ==> stream(j) == chunks[j - i]
  }

  /** readall, given a stream that starts with the chunks of a finished run, ends as the link's reader. */
  lemma {:induction false} ReaderIsReadAll(msg: string, l: Link, events: seq<Event>, stream: nat -> ReadResult, i: nat)
    requires Consistent(msg, l) && Exec(msg, l, events).Some? && Exec(msg, l, events).value.reader.done
    requires StreamsFrom(stream, i, Chunks(msg, l, events))
    ensures ReadRun(stream, i, l.reader) == Exec(msg, l, events).value.reader
    decreases |events|
  {
    if events != [] {
      var l', all := Apply(msg, l, events[0]), Chunks(msg, l, events);
      if events[0].Read? {
        assert all[1..] == Chunks(msg, l', events[1..]);
        assert stream(i) == all[0] == Bytes(l.wire[..events[0].n]);
        ReaderIsReadAll(msg, l', events[1..], stream, i + 1);
      } else {
        assert all == Chunks(msg, l', events[1..]);
        ReaderIsReadAll(msg, l', events[1..], stream, i);
      }
    }
  }
}
