/** The legacy game server: its UDP loop hands each datagram's trimmed text to a
    dispatcher that switches on the first space-separated token, relays WIN and
    LOSE to the statistics and inventory services, and wraps the answer in an
    ERROR or ACK envelope. */
module LegacyServer {
  import opened GoStrings
  import opened Transport
  import opened ReadWriteLoop

  datatype Option<T> = None | Some(value: T)

  /** The value of the "gateway" metadata every downstream call carries. */
  const Gateway: string := "internal"

  /** A downstream call, as the services receive it. */
  datatype Call =
    | IncrementUserStatistic(userId: string, key: string, delta: int, gateway: string)
    | UpdateUserVirtualCurrency(userId: string, currencyName: string, amount: int, gateway: string)

  /** The errors the dispatcher returns; their texts never reach the wire. */
  datatype Failure =
    | NoUserId                     // "no user id provided"
    | IncrementFailed(key: string) // "could not increment wins" / "... losses"
    | CurrencyUpdateFailed         // "could not update user virtual currency"

  /** What handling one text comes to: the process exits inside the handler, or the
      handler returns its three results together with the calls it made, in order. */
  datatype Handled =
    | Crashed(code: int)
    | Returned(response: string, addAck: bool, err: Option<Failure>, calls: seq<Call>)

  /** The tokens of a text: split on single spaces after trimming. */
  function Tokens(txt: string): seq<string> {
    Split(TrimSpace(txt))
  }

  function Verb(txt: string): string {
    Tokens(txt)[0]
  }

  /** The user id WIN and LOSE act on: exactly the second token. */
  function UserId(txt: string): string
    requires |Tokens(txt)| >= 2
  {
    Tokens(txt)[1]
  }

  /** handleResponse. `rpcOk` tells whether a downstream call succeeds. */
  function HandleResponse(txt: string, rpcOk: Call -> bool): (h: Handled)
    // CRASH as first token exits with status 1, and nothing else exits
    ensures h.Crashed? <==> Verb(txt) == "CRASH"
    ensures h.Crashed? ==> h.code == 1
    // EXIT and every verb without a case of its own echo the text for acknowledgement
    ensures Verb(txt) !in {"CRASH", "WIN", "LOSE"} ==> h == Returned(txt, true, None, [])
    // a missing user id fails before any call
    ensures Verb(txt) in {"WIN", "LOSE"} && |Tokens(txt)| < 2 ==> h == Returned("", true, Some(NoUserId), [])
    // every failure comes with an empty response
    ensures h.Returned? && h.err.Some? ==> h.response == ""
    // calls go to the user named by the second token, tagged as internal, and a call is
    // made only when every earlier one succeeded; the command fails exactly when the last one failed
    ensures h.Returned? ==> forall c <- h.calls :: c.userId == UserId(txt) && c.gateway == Gateway
    ensures h.Returned? ==> forall k :: 0 <= k < |h.calls| - 1 ==> rpcOk(h.calls[k])
    ensures h.Returned? && h.calls != [] ==> (h.err.Some? <==> !rpcOk(h.calls[|h.calls| - 1]))
  {
    var parts := Tokens(txt);
    if parts[0] == "EXIT" then
      // answered here; the loop itself asks for the shutdown
      Returned(txt, true, None, [])
    else if parts[0] == "CRASH" then
      Crashed(1)
    else if parts[0] == "WIN" then
      if |parts| < 2 then Returned("", true, Some(NoUserId), [])
      else
        var stat := IncrementUserStatistic(parts[1], "wins", 1, Gateway);
        if !rpcOk(stat) then Returned("", true, Some(IncrementFailed("wins")), [stat])
        else
          var coins := UpdateUserVirtualCurrency(parts[1], "coins", 100, Gateway);
          if !rpcOk(coins) then Returned("", true, Some(CurrencyUpdateFailed), [stat, coins])
          else Returned(parts[1] + " winner\n", false, None, [stat, coins])
    else if parts[0] == "LOSE" then
      if |parts| < 2 then Returned("", true, Some(NoUserId), [])
      else
        var stat := IncrementUserStatistic(parts[1], "losses", 1, Gateway);
        if !rpcOk(stat) then Returned("", false, Some(IncrementFailed("losses")), [stat])
        else Returned(parts[1] + " loser\n", false, None, [stat])
    else
      Returned(txt, true, None, [])
  }

  /** The envelope the loop puts around a returned response. */
  function Envelope(response: string, addAck: bool, err: Option<Failure>): string {
    if err.Some? then "ERROR: " + response + "\n"
    else if addAck then "ACK: " + response + "\n"
    else response
  }

  /** What the loop makes of handleResponse's results: the process exits, or the
      calls made and the enveloped reply to write. */
  function Respond(txt: string, rpcOk: Call -> bool): (t: Turn<Call>)
    // only a first token CRASH exits, with status 1
    ensures t.Exit? <==> Verb(txt) == "CRASH"
    ensures t.Exit? ==> t.code == 1
    ensures t.Answer? ==> t.calls == HandleResponse(txt, rpcOk).calls
    // an error takes precedence over the ACK flag, and every error looks the same on the wire
    ensures t.Answer? ==> (HandleResponse(txt, rpcOk).err.Some? <==> t.reply == "ERROR: \n")
    // without downstream calls, the text comes back acknowledged
    ensures t.Answer? && t.calls == [] && HandleResponse(txt, rpcOk).err.None?
            ==> t.reply == "ACK: " + txt + "\n"
    // a successful WIN or LOSE names its user, without the ACK prefix
    ensures t.Answer? && t.calls != [] && HandleResponse(txt, rpcOk).err.None?
            ==> t.reply == UserId(txt) + (if Verb(txt) == "WIN" then " winner\n" else " loser\n")
  {
    match HandleResponse(txt, rpcOk)
    case Crashed(code) => Exit(code)
    case Returned(response, addAck, err, calls) =>
      var wire := Envelope(response, addAck, err);
      assert err.None? && addAck ==> wire[0] == 'A';
      assert err.None? && !addAck ==> |wire| >= 2 && wire[|wire| - 2] == 'r';
      Answer(calls, wire)
  }

  /** The tokens of a trimmed command built from space-free tokens are those tokens. */
  lemma CommandTokens(parts: seq<string>)
    requires |parts| > 0 && forall p <- parts :: ' ' !in p
    requires IsTrimmed(Join(parts))
    ensures Tokens(Join(parts)) == parts
  {
    TrimSpaceKeepsTrimmed(Join(parts));
    SplitJoin(parts);
  }

  /** WIN with a user id: the wins statistic is incremented before the coins are
      granted, the coins are never granted when the increment fails, tokens after
      the user id play no part, and any failure is the bare ERROR reply. */
  lemma WinRelaysInOrder(userId: string, extra: seq<string>, rpcOk: Call -> bool)
    requires forall p <- [userId] + extra :: ' ' !in p
    requires IsTrimmed(Join(["WIN", userId] + extra))
    ensures var txt := Join(["WIN", userId] + extra);
            var stat := IncrementUserStatistic(userId, "wins", 1, "internal");
            var coins := UpdateUserVirtualCurrency(userId, "coins", 100, "internal");
            Respond(txt, rpcOk)
            == Answer(if rpcOk(stat) then [stat, coins] else [stat],
                      if rpcOk(stat) && rpcOk(coins) then userId + " winner\n" else "ERROR: \n")
  {
    var parts := ["WIN", userId] + extra;
    assert forall p <- parts :: p == "WIN" || p in [userId] + extra;
    CommandTokens(parts);
  }

  /** LOSE with a user id: exactly one call, the losses statistic, and no currency call. */
  lemma LoseRelaysOnce(userId: string, extra: seq<string>, rpcOk: Call -> bool)
    requires forall p <- [userId] + extra :: ' ' !in p
    requires IsTrimmed(Join(["LOSE", userId] + extra))
    ensures var txt := Join(["LOSE", userId] + extra);
            var stat := IncrementUserStatistic(userId, "losses", 1, "internal");
            Respond(txt, rpcOk) == Answer([stat], if rpcOk(stat) then userId + " loser\n" else "ERROR: \n")
  {
    var parts := ["LOSE", userId] + extra;
    assert forall p <- parts :: p == "LOSE" || p in [userId] + extra;
    CommandTokens(parts);
  }

  /** A blank text has the empty verb: it is acknowledged as it is and never fails. */
  lemma BlankTextEchoes(txt: string, rpcOk: Call -> bool)
    requires AllSpace(txt)
    ensures HandleResponse(txt, rpcOk) == Returned(txt, true, None, [])
    ensures Respond(txt, rpcOk) == Answer([], "ACK: " + txt + "\n")
  {
    BlankTrimsToEmpty(txt);
  }

  /** The text EXIT is the verb EXIT alone, acknowledged without calls. */
  lemma ExitReply(rpcOk: Call -> bool)
    ensures Respond("EXIT", rpcOk) == Answer([], "ACK: EXIT\n")
  {
    assert Join(["EXIT"]) == "EXIT";
    assert forall p <- ["EXIT"] :: ' ' !in p;
    CommandTokens(["EXIT"]);
  }

  /** STATUS has no case of its own here: it is acknowledged like any other text. */
  lemma StatusNotSpecial(rpcOk: Call -> bool)
    ensures Respond("STATUS", rpcOk) == Answer([], "ACK: STATUS\n")
  {
    assert Join(["STATUS"]) == "STATUS";
    assert forall p <- ["STATUS"] :: ' ' !in p;
    CommandTokens(["STATUS"]);
  }

  /** EXIT, with or without further tokens, is acknowledged like any other text;
      only the bare EXIT is the text the loop shuts down on. */
  lemma ExitAcknowledged(args: seq<string>, rpcOk: Call -> bool)
    requires forall p <- args :: ' ' !in p
    requires IsTrimmed(Join(["EXIT"] + args))
    ensures var txt := Join(["EXIT"] + args);
            && Respond(txt, rpcOk) == Answer([], "ACK: " + txt + "\n")
            && (txt == "EXIT" <==> args == [])
  {
    var parts := ["EXIT"] + args;
    assert forall p <- parts :: p == "EXIT" || p in args;
    CommandTokens(parts);
    if args != [] {
      assert parts[1..] == args;
      assert |Join(parts)| > 4;
    }
  }

  /** The outcome oracle for the downstream calls made while handling datagram `i`. */
  function RpcAt(oracle: (nat, Call) -> bool, i: nat): Call -> bool {
    c => oracle(i, c)
  }

  /** The legacy handler as the loop sees it; handleResponse is not given the sender. */
  function Dispatch(oracle: (nat, Call) -> bool): Handler<Call> {
    (i: nat, sender: Addr, txt: string) => Respond(txt, RpcAt(oracle, i))
  }

  /** readPacket: reads one datagram into the front of the buffer, leaving the cells
      after it as they were, and trims its text. */
  method ReadPacket(b: array<char>, d: Datagram) returns (sender: Addr, txt: string)
    modifies b
    ensures var r := Delivered(d.payload, b.Length);
            b[..|r|] == r && forall k :: |r| <= k < b.Length ==> b[k] == old(b[k])
    ensures sender == d.sender && txt == TrimSpace(Delivered(d.payload, b.Length))
  {
    var n;
    n, sender := ReadFrom(b, d);
    txt := TrimSpace(b[..n]);
  }

  /** udpReadWriteLoop, run over the datagrams that arrive. */
  method UdpReadWriteLoop(ds: seq<Datagram>, oracle: (nat, Call) -> bool)
    returns (events: seq<Event<Call>>, status: Status)
    ensures Run(events, status) == Serve(ds, Dispatch(oracle))
  {
    var b := new char[BufferSize];
    events, status := [], Reading;
    var i := 0;
    while i < |ds| && status == Reading
      invariant i <= |ds|
      invariant Run(events, status) == Serve(ds[..i], Dispatch(oracle))
    {
      assert ds[..i + 1][..i] == ds[..i] && ds[..i + 1][i] == ds[i];
      var sender, txt := ReadPacket(b, ds[i]);
      var h := HandleResponse(txt, RpcAt(oracle, i));
      if h.Crashed? {
        status := Exited(h.code);
      } else {
        events := events + Relayed(h.calls);
        var response := h.response;
        if h.err.Some? {
          response := "ERROR: " + response + "\n";
        } else if h.addAck {
          response := "ACK: " + response + "\n";
        }
        // udpRespond
        events := events + [Wrote(sender, response)];
        if txt == "EXIT" {
          // exit: Shutdown is requested, and the loop carries on reading
          events := events + [ShutdownCalled];
        }
      }
      i := i + 1;
    }
    if status.Exited? {
      ServeAfterExit(ds, i, Dispatch(oracle));
    } else {
      assert ds[..i] == ds;
    }
  }

  /** No datagram in `ds` has CRASH as its first token. */
  predicate NoCrash(ds: seq<Datagram>) {
    forall i :: 0 <= i < |ds| ==> Verb(ReceivedText(ds[i])) != "CRASH"
  }

  /** Without a CRASH the handler never exits, the loop is still reading at the end
      and it has written one reply per datagram. */
  lemma NoCrashAnswers(ds: seq<Datagram>, oracle: (nat, Call) -> bool)
    requires NoCrash(ds)
    ensures NoExit(ds, Dispatch(oracle))
    ensures Serve(ds, Dispatch(oracle)).status == Reading
    ensures |Replies(Serve(ds, Dispatch(oracle)).events)| == |ds|
  {
    forall i | 0 <= i < |ds| ensures TurnAt(ds, Dispatch(oracle), i).Answer? {
      assert TurnAt(ds, Dispatch(oracle), i) == Respond(ReceivedText(ds[i]), RpcAt(oracle, i));
    }
    ServeAnswersEach(ds, Dispatch(oracle));
  }

  /** A datagram not preceded by a CRASH, and not one itself, gets the enveloped
      result of handleResponse, written to its sender, as the (i+1)-th write of the
      run, whatever comes after it. */
  lemma RepliesGoToSenders(ds: seq<Datagram>, oracle: (nat, Call) -> bool, i: nat)
    requires i < |ds| && NoCrash(ds[..i]) && Verb(ReceivedText(ds[i])) != "CRASH"
    ensures i < |Replies(Serve(ds, Dispatch(oracle)).events)|
    ensures Replies(Serve(ds, Dispatch(oracle)).events)[i]
            == Wrote(ds[i].sender, Respond(ReceivedText(ds[i]), RpcAt(oracle, i)).reply)
  {
    NoCrashAnswers(ds[..i], oracle);
    assert TurnAt(ds, Dispatch(oracle), i) == Respond(ReceivedText(ds[i]), RpcAt(oracle, i));
    ReplyIsDue(ds, Dispatch(oracle), i);
  }

  /** Handling datagram `i` adds to the trace exactly the calls handleResponse makes
      for it, in its order, after those of the datagrams before it. */
  lemma CallsInArrivalOrder(ds: seq<Datagram>, oracle: (nat, Call) -> bool, i: nat)
    requires i < |ds| && NoCrash(ds[..i]) && Verb(ReceivedText(ds[i])) != "CRASH"
    ensures Calls(Serve(ds[..i + 1], Dispatch(oracle)).events)
            == Calls(Serve(ds[..i], Dispatch(oracle)).events)
               + HandleResponse(ReceivedText(ds[i]), RpcAt(oracle, i)).calls
    ensures Serve(ds[..i + 1], Dispatch(oracle)).events <= Serve(ds, Dispatch(oracle)).events
  {
    NoCrashAnswers(ds[..i], oracle);
    assert TurnAt(ds, Dispatch(oracle), i) == Respond(ReceivedText(ds[i]), RpcAt(oracle, i));
    ServeOneMore(ds, Dispatch(oracle), i);
  }

  /** Without a CRASH, the calls in the trace are exactly those owed, datagram after
      datagram. */
  lemma CallsMade(ds: seq<Datagram>, oracle: (nat, Call) -> bool)
    requires NoCrash(ds)
    ensures Calls(Serve(ds, Dispatch(oracle)).events) == DueCalls(ds, Dispatch(oracle))
  {
    NoCrashAnswers(ds, oracle);
    ServeCalls(ds, Dispatch(oracle));
  }

  /** A datagram reading exactly EXIT, not preceded by a CRASH, is answered
      "ACK: EXIT\n" at its sender's address, and the Shutdown request follows at once. */
  lemma ExitAckThenShutdown(ds: seq<Datagram>, oracle: (nat, Call) -> bool, i: nat)
    requires i < |ds| && NoCrash(ds[..i]) && ReceivedText(ds[i]) == "EXIT"
    ensures Serve(ds[..i + 1], Dispatch(oracle)).events
            == Serve(ds[..i], Dispatch(oracle)).events + [Wrote(ds[i].sender, "ACK: EXIT\n"), ShutdownCalled]
    ensures Serve(ds[..i + 1], Dispatch(oracle)).events <= Serve(ds, Dispatch(oracle)).events
  {
    NoCrashAnswers(ds[..i], oracle);
    ExitReply(RpcAt(oracle, i));
    assert TurnAt(ds, Dispatch(oracle), i) == Answer([], "ACK: EXIT\n");
    ExitAckedThenShutdown(ds, Dispatch(oracle), i, "ACK: EXIT\n");
  }

  /** Without a CRASH, each datagram reading exactly EXIT leads to one Shutdown, and
      no other datagram (EXIT with arguments included) leads to any. */
  lemma ShutdownPerExactExit(ds: seq<Datagram>, oracle: (nat, Call) -> bool)
    requires NoCrash(ds)
    ensures Shutdowns(Serve(ds, Dispatch(oracle)).events) == ExactExits(ds)
  {
    NoCrashAnswers(ds, oracle);
    ServeShutdowns(ds, Dispatch(oracle));
  }

  /** The first datagram whose first token is CRASH ends the process with status 1
      before anything is written for it. */
  lemma CrashExitsBeforeReply(ds: seq<Datagram>, oracle: (nat, Call) -> bool, k: nat)
    requires k < |ds| && NoCrash(ds[..k]) && Verb(ReceivedText(ds[k])) == "CRASH"
    ensures Serve(ds, Dispatch(oracle)) == Run(Serve(ds[..k], Dispatch(oracle)).events, Exited(1))
  {
    NoCrashAnswers(ds[..k], oracle);
    assert TurnAt(ds, Dispatch(oracle), k) == Respond(ReceivedText(ds[k]), RpcAt(oracle, k));
    ExitEndsServing(ds, Dispatch(oracle), k);
  }

  /** Every Shutdown comes straight after the reply "ACK: EXIT\n". */
  lemma ShutdownAfterExitAck(ds: seq<Datagram>, oracle: (nat, Call) -> bool)
    ensures ShutdownsFollow(Serve(ds, Dispatch(oracle)).events, "ACK: EXIT\n")
  {
    forall i: nat, a: Addr ensures Dispatch(oracle)(i, a, "EXIT") == Answer([], "ACK: EXIT\n") {
      ExitReply(RpcAt(oracle, i));
    }
    ShutdownFollowsExitReply(ds, Dispatch(oracle), "ACK: EXIT\n");
  }
}
