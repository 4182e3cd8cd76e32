/** The current game server: the whole trimmed text of a datagram is the command.
    STATUS is answered "OK", CRASH ends the process, and every other text is
    acknowledged as it is; an exact EXIT is acknowledged and then a shutdown is
    requested. There are no downstream services, so the loop's events carry no calls
    (their call type is the empty tuple). */
module Server {
  import opened GoStrings
  import opened Transport
  import opened ReadWriteLoop

  /** What handleInput comes to: the process exits, or a text to write back. */
  datatype Outcome = Crash(code: int) | Response(text: string)

  /** handleInput. The sender is passed in but plays no part. */
  function HandleInput(txt: string, sender: Addr): (o: Outcome)
    // exactly the text CRASH exits, with status 1
    ensures o.Crash? <==> txt == "CRASH"
    ensures o.Crash? ==> o.code == 1
    // exactly the text STATUS gets the bare "OK"
    ensures o == Response("OK") <==> txt == "STATUS"
    // everything else, EXIT and the empty text included, is echoed after "ACK: ", with no newline
    ensures o.Response? && txt != "STATUS" ==> o.text == "ACK: " + txt
  {
    if txt == "STATUS" then Response("OK")
    else if txt == "CRASH" then Crash(1)
    else Response("ACK: " + txt)
  }

  /** The reply depends on the text alone, never on who sent it. */
  lemma SenderIgnored(txt: string, a: Addr, b: Addr)
    ensures HandleInput(txt, a) == HandleInput(txt, b)
  {
  }

  /** Different texts get different replies, so a reply tells which text it answers. */
  lemma RepliesTellTextsApart(t1: string, t2: string, sender: Addr)
    requires HandleInput(t1, sender).Response? && HandleInput(t2, sender).Response?
    requires HandleInput(t1, sender) == HandleInput(t2, sender)
    ensures t1 == t2
  {
    var r := HandleInput(t1, sender).text;
    if t1 != "STATUS" && t2 != "STATUS" {
      assert t1 == r[5..] && t2 == r[5..];
    }
  }

  /** The whole text is the command: a verb followed by anything is only echoed. */
  lemma WholeTextIsTheCommand(args: string, sender: Addr)
    requires args != ""
    ensures HandleInput("STATUS " + args, sender) == Response("ACK: STATUS " + args)
    ensures HandleInput("CRASH " + args, sender) == Response("ACK: CRASH " + args)
  {
    assert |"STATUS " + args| > 6 && |"CRASH " + args| > 5;
  }

  /** What the loop makes of handleInput's result. */
  function Reply(txt: string, sender: Addr): Turn<()> {
    match HandleInput(txt, sender)
    case Crash(code) => Exit(code)
    case Response(text) => Answer([], text)
  }

  /** The text EXIT is acknowledged like any other, as "ACK: EXIT". */
  lemma ExitReply(sender: Addr)
    ensures Reply("EXIT", sender) == Answer([], "ACK: EXIT")
  {
    assert "ACK: " + "EXIT" == "ACK: EXIT";
  }

  /** The handler as the loop sees it. */
  function Dispatch(): Handler<()> {
    (i: nat, sender: Addr, txt: string) => Reply(txt, sender)
  }

  /** udpReadWriteLoop, run over the datagrams that arrive. A failed write or a failed
      Shutdown is only logged in the source, so the loop goes on either way. */
  method UdpReadWriteLoop(ds: seq<Datagram>) returns (events: seq<Event<()>>, status: Status)
    ensures Run(events, status) == Serve(ds, Dispatch())
  {
    var b := new char[BufferSize];
    events, status := [], Reading;
    var i := 0;
    while i < |ds| && status == Reading
      invariant i <= |ds|
      invariant Run(events, status) == Serve(ds[..i], Dispatch())
    {
      assert ds[..i + 1][..i] == ds[..i] && ds[..i + 1][i] == ds[i];
      var n, sender := ReadFrom(b, ds[i]);
      var txt := TrimSpace(b[..n]);
      var o := HandleInput(txt, sender);
      if o.Crash? {
        status := Exited(o.code);
      } else {
        events := events + [Wrote(sender, o.text)];
        if txt == "EXIT" {
          events := events + [ShutdownCalled];
        }
      }
      i := i + 1;
    }
    if status.Exited? {
      ServeAfterExit(ds, i, Dispatch());
    } else {
      assert ds[..i] == ds;
    }
  }

  /** No datagram in `ds` reads exactly CRASH. */
  predicate NoCrash(ds: seq<Datagram>) {
    forall i :: 0 <= i < |ds| ==> ReceivedText(ds[i]) != "CRASH"
  }

  /** Without a CRASH the handler never exits, the loop is still reading at the end
      and it has written one reply per datagram. */
  lemma NoCrashAnswers(ds: seq<Datagram>)
    requires NoCrash(ds)
    ensures NoExit(ds, Dispatch())
    ensures Serve(ds, Dispatch()).status == Reading
    ensures |Replies(Serve(ds, Dispatch()).events)| == |ds|
  {
    forall i | 0 <= i < |ds| ensures TurnAt(ds, Dispatch(), i).Answer? {
      assert TurnAt(ds, Dispatch(), i) == Reply(ReceivedText(ds[i]), ds[i].sender);
    }
    ServeAnswersEach(ds, Dispatch());
  }

  /** A datagram not preceded by a CRASH, and not one itself, gets handleInput's
      reply, written to its sender, as the (i+1)-th write of the run, whatever comes
      after it. */
  lemma RepliesGoToSenders(ds: seq<Datagram>, i: nat)
    requires i < |ds| && NoCrash(ds[..i]) && ReceivedText(ds[i]) != "CRASH"
    ensures i < |Replies(Serve(ds, Dispatch()).events)|
    ensures Replies(Serve(ds, Dispatch()).events)[i]
            == Wrote(ds[i].sender, HandleInput(ReceivedText(ds[i]), ds[i].sender).text)
  {
    NoCrashAnswers(ds[..i]);
    assert TurnAt(ds, Dispatch(), i) == Reply(ReceivedText(ds[i]), ds[i].sender);
    ReplyIsDue(ds, Dispatch(), i);
  }

  /** STATUS is answered "OK" whatever came before it and however often it is asked. */
  lemma StatusAlwaysOk(ds: seq<Datagram>, i: nat)
    requires i < |ds| && NoCrash(ds[..i]) && ReceivedText(ds[i]) == "STATUS"
    ensures i < |Replies(Serve(ds, Dispatch()).events)|
    ensures Replies(Serve(ds, Dispatch()).events)[i] == Wrote(ds[i].sender, "OK")
  {
    RepliesGoToSenders(ds, i);
  }

  /** A datagram reading exactly EXIT, not preceded by a CRASH, is answered
      "ACK: EXIT" at its sender's address, and the Shutdown request follows at once. */
  lemma ExitAckThenShutdown(ds: seq<Datagram>, i: nat)
    requires i < |ds| && NoCrash(ds[..i]) && ReceivedText(ds[i]) == "EXIT"
    ensures Serve(ds[..i + 1], Dispatch()).events
            == Serve(ds[..i], Dispatch()).events + [Wrote(ds[i].sender, "ACK: EXIT"), ShutdownCalled]
    ensures Serve(ds[..i + 1], Dispatch()).events <= Serve(ds, Dispatch()).events
  {
    NoCrashAnswers(ds[..i]);
    assert TurnAt(ds, Dispatch(), i) == Reply("EXIT", ds[i].sender);
    ExitReply(ds[i].sender);
    ExitAckedThenShutdown(ds, Dispatch(), i, "ACK: EXIT");
  }

  /** Without a CRASH, each datagram reading exactly EXIT leads to one Shutdown, and
      no other datagram leads to any. */
  lemma ShutdownPerExactExit(ds: seq<Datagram>)
    requires NoCrash(ds)
    ensures Shutdowns(Serve(ds, Dispatch()).events) == ExactExits(ds)
  {
    NoCrashAnswers(ds);
    ServeShutdowns(ds, Dispatch());
  }

  /** The first datagram reading exactly CRASH ends the process with status 1 before
      anything is written for it. */
  lemma CrashExitsBeforeReply(ds: seq<Datagram>, k: nat)
    requires k < |ds| && NoCrash(ds[..k]) && ReceivedText(ds[k]) == "CRASH"
    ensures Serve(ds, Dispatch()) == Run(Serve(ds[..k], Dispatch()).events, Exited(1))
  {
    NoCrashAnswers(ds[..k]);
    assert TurnAt(ds, Dispatch(), k) == Reply(ReceivedText(ds[k]), ds[k].sender);
    ExitEndsServing(ds, Dispatch(), k);
  }

  /** Every Shutdown comes straight after the reply "ACK: EXIT". */
  lemma ShutdownAfterExitAck(ds: seq<Datagram>)
    ensures ShutdownsFollow(Serve(ds, Dispatch()).events, "ACK: EXIT")
  {
    ShutdownFollowsExitReply(ds, Dispatch(), "ACK: EXIT");
  }
}
