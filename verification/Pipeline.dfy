/** From the client's arguments through the channel to the server's request record. */
module Pipeline {
  import opened CTypes
  import opened DictTable
  import opened Transport
  import opened Channel
  import opened Client
  import opened Server
  import opened RoundTrip

  lemma {:induction false} MessageNotEmpty(args: Args)
    requires args.Valid() && Message(args).Some?
    ensures Message(args).value != ""
  {
  }

  /**
   Whatever the chunks and their interleaving, a printable request that fits the reader
   arrives: a run can go on until both loops return 0, and then the server has the request.
   Shorter than the zeroed buffer of the server, it is also the C string that the server parses.
   */
  lemma {:induction false} RequestArrives(args: Args, hs: seq<Pair>, ps: seq<Pair>, events: seq<Event>)
    requires Printable(args, hs, ps) && Message(args).Some?
    requires |Message(args).value| <= 6291457
    requires Exec(Message(args).value, Start(Message(args).value), events).Some?
    ensures var msg := Message(args).value;
            var l := Exec(msg, Start(msg), events).value;
            if !Finished(l) then exists e :: Enabled(l, e)
            else
              && l.sender.Status() == 0 && l.reader.Status() == 0
              && Parse(l.reader.buf).Some?
              && Recovered(args, hs, ps, Parse(l.reader.buf).value)
              && l.reader.buf == msg
              && (|msg| < 87380 && '\0' !in msg ==> CString(Buffered(l.reader.buf, 87380)) == msg)
  {
    MessageNotEmpty(args);
    var msg := Message(args).value;
    if |msg| < DEF_READ && '\0' !in msg {
      BufferedIsText(msg, DEF_READ);
    }
    Delivery(Message(args).value, events);
    ParseUndoesPrint(args, hs, ps);
  }

  /** Within the dictionary limits the recovered maps are the plain last-wins maps. */
  lemma {:induction false} RecoveredWithinLimits(args: Args, hs: seq<Pair>, ps: seq<Pair>, p: Parsed)
    requires args.Valid() && Recovered(args, hs, ps, p)
    ensures |LastWins(ps).Keys| <= 20 ==> View(p.query) == LastWins(ps)
    ensures |LastWins(Fields(args, hs)).Keys| <= 50 ==> View(p.headers) == LastWins(Fields(args, hs))
  {
    if |LastWins(ps).Keys| <= MAX_PARAMS {
      BoundedIsLastWins(MAX_PARAMS, ps);
    }
    if |LastWins(Fields(args, hs)).Keys| <= MAX_HEADERS {
      BoundedIsLastWins(MAX_HEADERS, Fields(args, hs));
    }
  }
}
