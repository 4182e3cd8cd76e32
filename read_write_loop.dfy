/** The shape both servers' udpReadWriteLoop share: read a datagram into the
    reused buffer, hand its trimmed text to the handler, write the handler's
    reply back to the sender, and request a shutdown when the text is exactly
    EXIT; the loop only ends when the handler exits the process. The handler is
    a parameter here, so what is proved about the loop holds for both servers. */
module ReadWriteLoop {
  import opened Transport

  /** What the outside world sees, in order: downstream calls (of type C), socket
      writes and shutdown requests. */
  datatype Event<C> = Called(call: C) | Wrote(to: Addr, text: string) | ShutdownCalled

  /** Reading: the loop waits for the next datagram. Exited: the process is gone. */
  datatype Status = Reading | Exited(code: int)

  datatype Run<C> = Run(events: seq<Event<C>>, status: Status)

  /** What the handler makes of one text: it exits the process, or it makes some
      downstream calls and gives the reply to write. */
  datatype Turn<C> = Exit(code: int) | Answer(calls: seq<C>, reply: string)

  /** A handler sees the datagram's position (which stands for the moment it is
      handled, for the outcome of downstream calls), its sender and its text. */
  type Handler<C> = (nat, Addr, string) -> Turn<C>

  /** The events that record `calls`, one per call, in order. */
  function Relayed<C>(calls: seq<C>): seq<Event<C>>
    decreases |calls|
  {
    if calls == [] then [] else [Called(calls[0])] + Relayed(calls[1..])
  }

  /** The handler's turn on datagram `i` of `ds`. */
  function TurnAt<C>(ds: seq<Datagram>, handle: Handler<C>, i: nat): Turn<C>
    requires i < |ds|
  {
    handle(i, ds[i].sender, ReceivedText(ds[i]))
  }

  /** One pass of the loop on datagram `d`: the handler's calls, then its reply written
      to the sender, then a shutdown request if the text is exactly EXIT. Nothing
      happens once the process has exited. */
  function Step<C>(prev: Run<C>, d: Datagram, turn: Turn<C>): Run<C> {
    if prev.status.Exited? then prev
    else
      match turn
      case Exit(code) => Run(prev.events, Exited(code))
      case Answer(calls, reply) =>
        Run(prev.events + Relayed(calls) + [Wrote(d.sender, reply)]
            + (if ReceivedText(d) == "EXIT" then [ShutdownCalled] else []),
            Reading)
  }

  /** The loop run over the datagrams `ds`, in the order they arrive. */
  function Serve<C>(ds: seq<Datagram>, handle: Handler<C>): Run<C>
    decreases |ds|
  {
    if ds == [] then Run([], Reading)
    else Step(Serve(ds[..|ds| - 1], handle), ds[|ds| - 1], TurnAt(ds, handle, |ds| - 1))
  }

  /** The replies among the events, in the order they were written. */
  function Replies<C>(es: seq<Event<C>>): seq<Event<C>>
    decreases |es|
  {
    if es == [] then [] else (if es[0].Wrote? then [es[0]] else []) + Replies(es[1..])
  }

  /** The number of shutdown requests among the events. */
  function Shutdowns<C>(es: seq<Event<C>>): nat
    decreases |es|
  {
    if es == [] then 0 else (if es[0].ShutdownCalled? then 1 else 0) + Shutdowns(es[1..])
  }

  /** The handler exits the process on none of the datagrams. */
  predicate NoExit<C>(ds: seq<Datagram>, handle: Handler<C>) {
    forall i :: 0 <= i < |ds| ==> TurnAt(ds, handle, i).Answer?
  }

  /** The reply each datagram is owed: the handler's reply, addressed to its sender. */
  function DueReplies<C>(ds: seq<Datagram>, handle: Handler<C>): seq<Event<C>>
    requires NoExit(ds, handle)
  {
    seq(|ds|, i requires 0 <= i < |ds| && NoExit(ds, handle) =>
      Wrote(ds[i].sender, TurnAt(ds, handle, i).reply))
  }

  /** How many datagrams of `ds` read exactly EXIT. */
  function ExactExits(ds: seq<Datagram>): nat
    decreases |ds|
  {
    if ds == [] then 0
    else ExactExits(ds[..|ds| - 1]) + (if ReceivedText(ds[|ds| - 1]) == "EXIT" then 1 else 0)
  }

  /** The downstream calls among the events, in the order they were made. */
  function Calls<C>(es: seq<Event<C>>): seq<C>
    decreases |es|
  {
    if es == [] then [] else (if es[0].Called? then [es[0].call] else []) + Calls(es[1..])
  }

  /** The calls the datagrams of `ds` are owed, datagram after datagram in arrival
      order, each datagram's calls in the order its handler made them. */
  function DueCalls<C>(ds: seq<Datagram>, handle: Handler<C>): seq<C>
    decreases |ds|
  {
    if ds == [] then []
    else
      DueCalls(ds[..|ds| - 1], handle)
      + match TurnAt(ds, handle, |ds| - 1)
        case Answer(calls, _) => calls
        case Exit(_) => []
  }

  lemma {:induction false} RepliesAppend<C>(a: seq<Event<C>>, b: seq<Event<C>>)
    ensures Replies(a + b) == Replies(a) + Replies(b)
    decreases |a|
  {
    if a == [] {
      assert a + b == b;
    } else {
      assert (a + b)[0] == a[0] && (a + b)[1..] == a[1..] + b;
      RepliesAppend(a[1..], b);
    }
  }

  lemma {:induction false} ShutdownsAppend<C>(a: seq<Event<C>>, b: seq<Event<C>>)
    ensures Shutdowns(a + b) == Shutdowns(a) + Shutdowns(b)
    decreases |a|
  {
    if a == [] {
      assert a + b == b;
    } else {
      assert (a + b)[0] == a[0] && (a + b)[1..] == a[1..] + b;
      ShutdownsAppend(a[1..], b);
    }
  }

  lemma {:induction false} CallsAppend<C>(a: seq<Event<C>>, b: seq<Event<C>>)
    ensures Calls(a + b) == Calls(a) + Calls(b)
    decreases |a|
  {
    if a == [] {
      assert a + b == b;
    } else {
      assert (a + b)[0] == a[0] && (a + b)[1..] == a[1..] + b;
      CallsAppend(a[1..], b);
    }
  }

  /** Relaying calls puts exactly those calls, in that order, into the trace. */
  lemma {:induction false} CallsRelayed<C>(calls: seq<C>)
    ensures Calls(Relayed(calls)) == calls
    decreases |calls|
  {
    if calls != [] {
      assert Relayed(calls)[1..] == Relayed(calls[1..]);
      CallsRelayed(calls[1..]);
    }
  }

  /** Downstream calls are neither replies nor shutdown requests. */
  lemma {:induction false} RelayedIsSilent<C>(calls: seq<C>)
    ensures forall k :: 0 <= k < |Relayed(calls)| ==> Relayed(calls)[k].Called?
    ensures Replies(Relayed(calls)) == [] && Shutdowns(Relayed(calls)) == 0
    decreases |calls|
  {
    if calls != [] {
      var rest := Relayed(calls[1..]);
      assert Relayed(calls)[1..] == rest;
      RelayedIsSilent(calls[1..]);
      forall k | 0 <= k < |Relayed(calls)| ensures Relayed(calls)[k].Called? {
        if k > 0 {
          assert Relayed(calls)[k] == rest[k - 1];
        }
      }
    }
  }

  /** Once the process has exited, later datagrams change nothing. */
  lemma {:induction false} ServeAfterExit<C>(ds: seq<Datagram>, i: nat, handle: Handler<C>)
    requires i <= |ds| && Serve(ds[..i], handle).status.Exited?
    ensures Serve(ds, handle) == Serve(ds[..i], handle)
    decreases |ds| - i
  {
    if i < |ds| {
      assert ds[..|ds| - 1][..i] == ds[..i];
      ServeAfterExit(ds[..|ds| - 1], i, handle);
    } else {
      assert ds[..i] == ds;
    }
  }

  /** A pass that does not exit writes exactly one reply, the handler's, to the
      sender, and requests a shutdown exactly when the text is EXIT. */
  lemma StepAnswers<C>(prev: Run<C>, d: Datagram, turn: Turn<C>)
    requires prev.status == Reading && turn.Answer?
    ensures Step(prev, d, turn).status == Reading
    ensures Replies(Step(prev, d, turn).events) == Replies(prev.events) + [Wrote(d.sender, turn.reply)]
    ensures Shutdowns(Step(prev, d, turn).events)
            == Shutdowns(prev.events) + (if ReceivedText(d) == "EXIT" then 1 else 0)
    ensures Calls(Step(prev, d, turn).events) == Calls(prev.events) + turn.calls
  {
    var w := [Wrote(d.sender, turn.reply)];
    var tail: seq<Event<C>> := if ReceivedText(d) == "EXIT" then [ShutdownCalled] else [];
    RelayedIsSilent(turn.calls);
    RepliesAppend(prev.events + Relayed(turn.calls) + w, tail);
    RepliesAppend(prev.events + Relayed(turn.calls), w);
    RepliesAppend(prev.events, Relayed(turn.calls));
    ShutdownsAppend(prev.events + Relayed(turn.calls) + w, tail);
    ShutdownsAppend(prev.events + Relayed(turn.calls), w);
    ShutdownsAppend(prev.events, Relayed(turn.calls));
    CallsRelayed(turn.calls);
    CallsAppend(prev.events + Relayed(turn.calls) + w, tail);
    CallsAppend(prev.events + Relayed(turn.calls), w);
    CallsAppend(prev.events, Relayed(turn.calls));
    assert Replies(tail) == [] && Replies(w) == w && Shutdowns(w) == 0;
    assert Calls(tail) == [] && Calls(w) == [];
  }

  lemma NoExitPrefix<C>(ds: seq<Datagram>, handle: Handler<C>, n: nat)
    requires n <= |ds| && NoExit(ds, handle)
    ensures NoExit(ds[..n], handle)
    ensures forall i :: 0 <= i < n ==> TurnAt(ds[..n], handle, i) == TurnAt(ds, handle, i)
  {
    forall i | 0 <= i < n ensures TurnAt(ds[..n], handle, i) == TurnAt(ds, handle, i) {
      assert ds[..n][i] == ds[i];
    }
  }

  /** When the handler never exits, the loop keeps reading and writes exactly the
      replies owed, one per datagram, in arrival order, each to the address the
      datagram came from. */
  lemma {:induction false} ServeAnswersEach<C>(ds: seq<Datagram>, handle: Handler<C>)
    requires NoExit(ds, handle)
    ensures Serve(ds, handle).status == Reading
    ensures Replies(Serve(ds, handle).events) == DueReplies(ds, handle)
    decreases |ds|
  {
    if ds != [] {
      var n := |ds| - 1;
      var init := ds[..n];
      NoExitPrefix(ds, handle, n);
      ServeAnswersEach(init, handle);
      StepAnswers(Serve(init, handle), ds[n], TurnAt(ds, handle, n));
      assert DueReplies(ds, handle) == DueReplies(init, handle) + [Wrote(ds[n].sender, TurnAt(ds, handle, n).reply)];
    }
  }

  /** When the handler never exits, every datagram reading exactly EXIT leads to one
      shutdown request and no other datagram leads to any; reading goes on after each. */
  lemma {:induction false} ServeShutdowns<C>(ds: seq<Datagram>, handle: Handler<C>)
    requires NoExit(ds, handle)
    ensures Shutdowns(Serve(ds, handle).events) == ExactExits(ds)
    decreases |ds|
  {
    if ds != [] {
      var n := |ds| - 1;
      var init := ds[..n];
      NoExitPrefix(ds, handle, n);
      ServeShutdowns(init, handle);
      ServeAnswersEach(init, handle);
      StepAnswers(Serve(init, handle), ds[n], TurnAt(ds, handle, n));
    }
  }

  /** When the handler never exits, the trace holds exactly the calls owed: those of
      each datagram in turn, in arrival order, none left out and none repeated. */
  lemma {:induction false} ServeCalls<C>(ds: seq<Datagram>, handle: Handler<C>)
    requires NoExit(ds, handle)
    ensures Calls(Serve(ds, handle).events) == DueCalls(ds, handle)
    decreases |ds|
  {
    if ds != [] {
      var n := |ds| - 1;
      var init := ds[..n];
      NoExitPrefix(ds, handle, n);
      ServeCalls(init, handle);
      ServeAnswersEach(init, handle);
      StepAnswers(Serve(init, handle), ds[n], TurnAt(ds, handle, n));
    }
  }

  /** The trace of the first `n` datagrams is the start of the trace of them all:
      what later datagrams do never changes what was done before. */
  lemma {:induction false} ServePrefix<C>(ds: seq<Datagram>, handle: Handler<C>, n: nat)
    requires n <= |ds|
    ensures Serve(ds[..n], handle).events <= Serve(ds, handle).events
    decreases |ds| - n
  {
    if n < |ds| {
      var m := |ds| - 1;
      assert ds[..m][..n] == ds[..n];
      ServePrefix(ds[..m], handle, n);
      assert Serve(ds[..m], handle).events <= Serve(ds, handle).events;
    } else {
      assert ds[..n] == ds;
    }
  }

  /** Datagram `i`, when the handler answers it and exited on none before it, adds to
      the trace its calls, then its reply written to its sender, then a shutdown
      request if its text is exactly EXIT, and reading goes on. */
  lemma ServeOneMore<C>(ds: seq<Datagram>, handle: Handler<C>, i: nat)
    requires i < |ds| && NoExit(ds[..i], handle) && TurnAt(ds, handle, i).Answer?
    ensures Serve(ds[..i + 1], handle).status == Reading
    ensures Serve(ds[..i + 1], handle).events
            == Serve(ds[..i], handle).events + Relayed(TurnAt(ds, handle, i).calls)
               + [Wrote(ds[i].sender, TurnAt(ds, handle, i).reply)]
               + (if ReceivedText(ds[i]) == "EXIT" then [ShutdownCalled] else [])
    ensures Calls(Serve(ds[..i + 1], handle).events)
            == Calls(Serve(ds[..i], handle).events) + TurnAt(ds, handle, i).calls
    ensures |Replies(Serve(ds[..i], handle).events)| == i
    ensures Replies(Serve(ds[..i + 1], handle).events)
            == Replies(Serve(ds[..i], handle).events) + [Wrote(ds[i].sender, TurnAt(ds, handle, i).reply)]
    ensures Serve(ds[..i + 1], handle).events <= Serve(ds, handle).events
  {
    var pre := ds[..i + 1];
    assert pre[..i] == ds[..i] && pre[i] == ds[i];
    assert TurnAt(pre, handle, i) == TurnAt(ds, handle, i);
    ServeAnswersEach(ds[..i], handle);
    StepAnswers(Serve(ds[..i], handle), ds[i], TurnAt(ds, handle, i));
    ServePrefix(ds, handle, i + 1);
  }

  lemma AckThenShutdown<C>(prev: seq<Event<C>>, w: Event<C>)
    ensures prev + Relayed<C>([]) + [w] + [ShutdownCalled] == prev + [w, ShutdownCalled]
  {
    assert Relayed<C>([]) == [];
  }

  /** A datagram reading exactly EXIT that the handler answers with `exitReply` and
      no calls gets that reply at its sender's address, then the shutdown request. */
  lemma ExitAckedThenShutdown<C>(ds: seq<Datagram>, handle: Handler<C>, i: nat, exitReply: string)
    requires i < |ds| && NoExit(ds[..i], handle) && ReceivedText(ds[i]) == "EXIT"
    requires TurnAt(ds, handle, i) == Answer([], exitReply)
    ensures Serve(ds[..i + 1], handle).events
            == Serve(ds[..i], handle).events + [Wrote(ds[i].sender, exitReply), ShutdownCalled]
    ensures Serve(ds[..i + 1], handle).events <= Serve(ds, handle).events
  {
    var prev := Serve(ds[..i], handle).events;
    var w := Wrote(ds[i].sender, exitReply);
    assert Serve(ds[..i + 1], handle).events == prev + Relayed<C>([]) + [w] + [ShutdownCalled] by {
      ServeOneMore(ds, handle, i);
    }
    AckThenShutdown(prev, w);
    ServePrefix(ds, handle, i + 1);
  }

  /** The reply to datagram `i` is the handler's, written to its sender, as the
      (i+1)-th write of the whole run, whatever the datagrams after it do. */
  lemma ReplyIsDue<C>(ds: seq<Datagram>, handle: Handler<C>, i: nat)
    requires i < |ds| && NoExit(ds[..i], handle) && TurnAt(ds, handle, i).Answer?
    ensures i < |Replies(Serve(ds, handle).events)|
    ensures Replies(Serve(ds, handle).events)[i] == Wrote(ds[i].sender, TurnAt(ds, handle, i).reply)
  {
    var w := Wrote(ds[i].sender, TurnAt(ds, handle, i).reply);
    var p := Serve(ds[..i + 1], handle).events;
    var e := Serve(ds, handle).events;
    var before := Replies(Serve(ds[..i], handle).events);
    assert p <= e && |before| == i && Replies(p) == before + [w] by {
      ServeOneMore(ds, handle, i);
    }
    assert e == p + e[|p|..];
    RepliesAppend(p, e[|p|..]);
    assert Replies(e)[i] == (before + [w])[i];
  }

  /** The first datagram the handler exits on ends the process with the handler's
      code: no reply is written to it and nothing happens for the datagrams after it. */
  lemma ExitEndsServing<C>(ds: seq<Datagram>, handle: Handler<C>, k: nat)
    requires k < |ds| && NoExit(ds[..k], handle) && TurnAt(ds, handle, k).Exit?
    ensures Serve(ds, handle) == Run(Serve(ds[..k], handle).events, Exited(TurnAt(ds, handle, k).code))
  {
    assert ds[..k + 1][..k] == ds[..k] && ds[..k + 1][k] == ds[k];
    assert TurnAt(ds[..k + 1], handle, k) == TurnAt(ds, handle, k);
    ServeAnswersEach(ds[..k], handle);
    ServeAfterExit(ds, k + 1, handle);
  }

  /** Every shutdown request among `es` comes straight after a write of `reply`. */
  predicate ShutdownsFollow<C>(es: seq<Event<C>>, reply: string) {
    forall k :: 0 <= k < |es| && es[k].ShutdownCalled? ==>
      k > 0 && es[k - 1].Wrote? && es[k - 1].text == reply
  }

  lemma ShutdownsFollowAppend<C>(a: seq<Event<C>>, b: seq<Event<C>>, reply: string)
    requires ShutdownsFollow(a, reply) && ShutdownsFollow(b, reply)
    requires b == [] || !b[0].ShutdownCalled?
    ensures ShutdownsFollow(a + b, reply)
  {
    forall k | 0 <= k < |a + b| && (a + b)[k].ShutdownCalled?
      ensures k > 0 && (a + b)[k - 1].Wrote? && (a + b)[k - 1].text == reply
    {
      if k < |a| {
        assert (a + b)[k] == a[k];
      } else {
        assert (a + b)[k] == b[k - |a|];
      }
    }
  }

  /** If the handler answers EXIT with `exitReply` and no calls, every shutdown
      request comes straight after that reply. */
  lemma {:induction false} ShutdownFollowsExitReply<C>(ds: seq<Datagram>, handle: Handler<C>, exitReply: string)
    requires forall i: nat, a: Addr :: handle(i, a, "EXIT") == Answer([], exitReply)
    ensures ShutdownsFollow(Serve(ds, handle).events, exitReply)
    decreases |ds|
  {
    if ds != [] {
      var n := |ds| - 1;
      ShutdownFollowsExitReply(ds[..n], handle, exitReply);
      var prev := Serve(ds[..n], handle);
      var turn := TurnAt(ds, handle, n);
      if prev.status.Reading? && turn.Answer? {
        var relayed := Relayed(turn.calls);
        var w := Wrote(ds[n].sender, turn.reply);
        var block := [w] + (if ReceivedText(ds[n]) == "EXIT" then [ShutdownCalled] else []);
        assert Serve(ds, handle).events == prev.events + relayed + block;
        RelayedIsSilent(turn.calls);
        assert ShutdownsFollow(relayed, exitReply);
        ShutdownsFollowAppend(prev.events, relayed, exitReply);
        assert ReceivedText(ds[n]) == "EXIT" ==> turn == Answer([], exitReply);
        assert ShutdownsFollow(block, exitReply);
        ShutdownsFollowAppend(prev.events + relayed, block, exitReply);
      }
    }
  }
}
