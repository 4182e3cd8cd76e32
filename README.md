# snapser-byogs UDP command dispatcher, in Dafny

A model of the two game servers of snapser-byogs. Each one listens on a UDP port, reads
one datagram at a time into a reused 1024-byte buffer, trims the text, and turns it into
a reply that goes back to the sender. An exact `EXIT` also makes the server ask the
Agones SDK to shut it down.

- **Legacy server** (`legacy/byogs-go/main.go`). `handleResponse` splits the trimmed text
  on single spaces and switches on the first token:
  - `EXIT` and unknown verbs are echoed back.
  - `CRASH` ends the process with status 1.
  - `WIN <user>` increments the user's `wins` statistic, then grants 100 `coins`.
  - `LOSE <user>` increments the user's `losses` statistic.

  The loop wraps the result in an `ERROR: ` or `ACK: ` envelope, or writes it unchanged when
  neither applies (a successful `WIN` or `LOSE`).
- **Current server** (`byogs-go/main.go`). `handleInput` matches the whole trimmed text.
  `STATUS` is answered `OK`, `CRASH` ends the process, and anything else is echoed
  after `ACK: `.

Modules:

- `GoStrings`: the parts of Go's `strings` package the servers use. `TrimSpace` covers
  ASCII white space. `Split(s, " ")` is modelled with its Go edge cases: `[""]` for the
  empty text, and empty pieces between doubled spaces. `Join` is its inverse.
- `Transport`: addresses, datagrams, the 1024-byte buffer, and `ReadFrom`, which copies a
  datagram into that buffer.
- `ReadWriteLoop`: the loop both servers share, specified by a function `Serve`. `Serve`
  runs a handler over a finite sequence of datagrams and produces a trace of events:
  downstream calls, socket writes and shutdown requests. It also produces a final status:
  still reading, or exited with a code. The handler is a parameter, so each loop lemma is
  proved once and holds for both servers.
- `LegacyServer`: `handleResponse`, the envelope, `readPacket` and the legacy loop. Each
  downstream call either succeeds or fails. The outcome is an input: an oracle keyed by
  the datagram's position and the call.
- `Server`: `handleInput` and the current server's loop.

Each loop is a method. It allocates its own buffer, as `make` does, and iterates over the
datagrams. Its postcondition equates its trace and final status with `Serve`. The
properties of the servers are then proved as lemmas about `Serve`.

## Model

| member | source | states |
|---|---|---|
| GoStrings.TrimSpaceCutsEnds | legacy/byogs-go/main.go:132 | `TrimSpace(s)` is `s` with an all-white-space prefix and suffix cut off, and the result has white space at neither end |
| GoStrings.TrimSpaceOf | legacy/byogs-go/main.go:236 | cutting white space around a text that has none at its ends gives that text, so `TrimSpace` is determined by what it keeps |
| GoStrings.TrimSpaceIdempotent | legacy/byogs-go/main.go:132 | trimming a trimmed text changes nothing, so `handleResponse` trimming the text `readPacket` already trimmed changes nothing |
| GoStrings.TrimSpaceKeepsTrimmed | legacy/byogs-go/main.go:132 | a text with no white space at either end is its own trim |
| GoStrings.BlankTrimsToEmpty | legacy/byogs-go/main.go:132 | a text made only of white space trims to the empty text |
| GoStrings.IndexOf | legacy/byogs-go/main.go:132 | a found index points at the character searched for |
| GoStrings.IndexOfFirst | legacy/byogs-go/main.go:132 | the character does not occur before the index found |
| GoStrings.Split | legacy/byogs-go/main.go:132 | `strings.Split(s, " ")` always yields at least one piece |
| GoStrings.SplitPieces | legacy/byogs-go/main.go:132 | there is one more piece than there are spaces, no piece holds a space, and joining the pieces with spaces gives back the text |
| GoStrings.SplitJoin | legacy/byogs-go/main.go:132 | splitting a space-joined sequence of space-free pieces gives back exactly those pieces, empty ones included |
| Transport.Delivered | legacy/byogs-go/main.go:231-236 | a read delivers the first `min(len, capacity)` bytes of the datagram and discards the rest |
| Transport.ReceivedTextWithinBuffer | byogs-go/main.go:95-101 | the handled text is a stretch of the first 1024 bytes, with only white space cut around it, at most 1024 characters long and trimmed at both ends |
| Transport.ReadFrom | byogs-go/main.go:97 | after the read, the buffer's first `n` cells hold what a read of that capacity delivers, every cell after them keeps its old content, and the sender is the datagram's sender |
| ReadWriteLoop.ServeAfterExit | legacy/byogs-go/main.go:142-145 | once the process has exited, later datagrams change neither the trace nor the status |
| ReadWriteLoop.ServeAnswersEach | legacy/byogs-go/main.go:201-221 | if the handler never exits, the loop is still reading at the end and has written exactly one reply per datagram, in arrival order, to that datagram's sender, carrying the handler's reply |
| ReadWriteLoop.ServeShutdowns | legacy/byogs-go/main.go:217-219 | if the handler never exits, the number of shutdown requests equals the number of datagrams whose text is exactly `EXIT` |
| ReadWriteLoop.ServeCalls | legacy/byogs-go/main.go:151-167 | if the handler never exits, the trace holds exactly the downstream calls owed: each datagram's calls in the order its handler made them, datagram after datagram in arrival order |
| ReadWriteLoop.ServePrefix | legacy/byogs-go/main.go:203-220 | the trace of the first `n` datagrams is the start of the trace of them all, so later datagrams never change what was done before |
| ReadWriteLoop.ServeOneMore | legacy/byogs-go/main.go:204-219 | a datagram that is answered, with no exit before it, adds to the trace its calls, then its reply written to its sender, then a shutdown request exactly when its text is `EXIT`. Reading goes on, and the reply is the (i+1)-th write |
| ReadWriteLoop.ReplyIsDue | legacy/byogs-go/main.go:204-215 | a datagram that is answered, with no exit before it, gets the handler's reply at its sender's address as the (i+1)-th write of the whole run, whatever the later datagrams do |
| ReadWriteLoop.ExitAckedThenShutdown | legacy/byogs-go/main.go:214-219 | a datagram reading exactly `EXIT`, answered without calls, adds exactly its reply to its sender followed by one shutdown request |
| ReadWriteLoop.ExitEndsServing | legacy/byogs-go/main.go:142-145 | the first datagram whose handler exits leaves the earlier trace as it was, with no reply for itself, and ends the run with the handler's exit code |
| ReadWriteLoop.ShutdownFollowsExitReply | legacy/byogs-go/main.go:214-219 | if the handler answers `EXIT` with a fixed reply and no calls, every shutdown request comes straight after a write of that reply |
| LegacyServer.HandleResponse | legacy/byogs-go/main.go:131-189 | the process exits, with status 1, exactly when the first token is `CRASH`. `EXIT` and verbs without a case of their own return the text with the ACK flag and no calls. `WIN`/`LOSE` with fewer than two tokens fail before any call. Every failure has an empty response. Calls carry the second token as user id and the `internal` gateway. A call is made only after every earlier one succeeded, and the command fails exactly when its last call failed |
| LegacyServer.Respond | legacy/byogs-go/main.go:208-212 | only a first-token `CRASH` exits, with status 1. The reply is `ERROR: \n` exactly when handling failed, so the error check takes precedence over the ACK flag. A text handled without calls and without error comes back as `ACK: <text>\n`. A successful `WIN`/`LOSE` replies `<user> winner\n` or `<user> loser\n`, with no ACK prefix |
| LegacyServer.CommandTokens | legacy/byogs-go/main.go:132 | a trimmed command built from space-free tokens splits back into exactly those tokens |
| LegacyServer.WinRelaysInOrder | legacy/byogs-go/main.go:146-170 | `WIN <user> ...` increments `wins` by 1 strictly before granting 100 `coins`. It never grants coins when the increment fails, and ignores tokens after the user id. It replies `<user> winner\n` when both calls succeed and `ERROR: \n` otherwise |
| LegacyServer.LoseRelaysOnce | legacy/byogs-go/main.go:171-186 | `LOSE <user> ...` makes exactly one call, incrementing `losses` by 1, and no currency call. It replies `<user> loser\n` or `ERROR: \n` |
| LegacyServer.BlankTextEchoes | legacy/byogs-go/main.go:132-137 | a blank text has the empty verb. It takes the default case, is acknowledged as it is, and never fails |
| LegacyServer.ExitReply | legacy/byogs-go/main.go:139-141 | the text `EXIT` is acknowledged as `ACK: EXIT\n` without calls |
| LegacyServer.StatusNotSpecial | legacy/byogs-go/main.go:188 | `STATUS` has no case of its own in this server and is acknowledged as `ACK: STATUS\n` |
| LegacyServer.ExitAcknowledged | legacy/byogs-go/main.go:139-141 | `EXIT` followed by any tokens is acknowledged like any text, and only the bare `EXIT` is the text the loop shuts down on |
| LegacyServer.ReadPacket | legacy/byogs-go/main.go:231-239 | the delivered bytes fill the front of the buffer and the cells after them keep their old content. Returns the datagram's sender and the trimmed text of what fitted into the buffer |
| LegacyServer.UdpReadWriteLoop | legacy/byogs-go/main.go:201-229 | the loop's trace of calls, writes and shutdown requests, and its final status, are those of `Serve` with the legacy handler |
| LegacyServer.NoCrashAnswers | legacy/byogs-go/main.go:142-145 | without a first-token `CRASH`, the handler never exits, the loop is still reading at the end, and exactly one reply per datagram has been written |
| LegacyServer.RepliesGoToSenders | legacy/byogs-go/main.go:204-215 | a datagram that is not a `CRASH` and follows none gets the enveloped reply to its text, written to its own sender as the (i+1)-th write, whatever comes after it |
| LegacyServer.CallsInArrivalOrder | legacy/byogs-go/main.go:151-167 | handling a datagram adds to the trace exactly the calls `handleResponse` makes for it, in its order, after those of the earlier datagrams, and later datagrams never change that part of the trace |
| LegacyServer.CallsMade | legacy/byogs-go/main.go:146-186 | without a `CRASH`, the calls in the trace are exactly those owed, datagram after datagram |
| LegacyServer.ExitAckThenShutdown | legacy/byogs-go/main.go:214-219 | a datagram reading exactly `EXIT`, with no `CRASH` before it, is answered `ACK: EXIT\n` at its own sender's address, and one shutdown request follows at once |
| LegacyServer.ShutdownPerExactExit | legacy/byogs-go/main.go:217-219 | without a `CRASH`, each datagram reading exactly `EXIT` leads to one shutdown request, and no other datagram leads to any |
| LegacyServer.CrashExitsBeforeReply | legacy/byogs-go/main.go:142-145 | the first first-token `CRASH` ends the process with status 1 before anything is written for it. Nothing after it is read |
| LegacyServer.ShutdownAfterExitAck | legacy/byogs-go/main.go:214-219 | every shutdown request comes right after the write of `ACK: EXIT\n` |
| Server.HandleInput | byogs-go/main.go:119-128 | exactly the text `CRASH` exits, with status 1. Exactly the text `STATUS` gets `OK`. Every other text, `EXIT` and the empty text included, gets `ACK: <text>` with no newline |
| Server.SenderIgnored | byogs-go/main.go:119 | the reply depends on the text alone, never on the sender |
| Server.RepliesTellTextsApart | byogs-go/main.go:119-128 | different texts get different replies |
| Server.WholeTextIsTheCommand | byogs-go/main.go:120-127 | `STATUS` or `CRASH` followed by anything is only echoed |
| Server.ExitReply | byogs-go/main.go:127 | the text `EXIT` is acknowledged as `ACK: EXIT` without exiting |
| Server.UdpReadWriteLoop | byogs-go/main.go:94-117 | the loop's trace of writes and shutdown requests, and its final status, are those of `Serve` with `handleInput` as the handler |
| Server.NoCrashAnswers | byogs-go/main.go:123-125 | without the text `CRASH`, the handler never exits, the loop is still reading at the end, and exactly one reply per datagram has been written |
| Server.RepliesGoToSenders | byogs-go/main.go:97-107 | a datagram that is not a `CRASH` and follows none gets `handleInput`'s reply to its text, written to its own sender as the (i+1)-th write, whatever comes after it |
| Server.StatusAlwaysOk | byogs-go/main.go:121-122 | `STATUS` is answered `OK` at its sender's address whatever non-`CRASH` datagrams came before it, however often it is asked, and whatever comes after it |
| Server.ExitAckThenShutdown | byogs-go/main.go:104-115 | a datagram reading exactly `EXIT`, with no `CRASH` before it, is answered `ACK: EXIT` at its own sender's address, and one shutdown request follows at once |
| Server.ShutdownPerExactExit | byogs-go/main.go:109-115 | without a `CRASH`, each datagram reading exactly `EXIT` leads to one shutdown request, and no other datagram leads to any |
| Server.CrashExitsBeforeReply | byogs-go/main.go:123-125 | the first `CRASH` ends the process with status 1 before anything is written for it |
| Server.ShutdownAfterExitAck | byogs-go/main.go:104-115 | every shutdown request comes right after the write of `ACK: EXIT` |

## Left out

- `main`, `New`, `UdpListener`, flag and environment parsing, and gRPC client
  construction. These are startup glue.
- `Ready`, `updateGameServerState` and the game-server watch callback. `Ready` is a plain
  Agones SDK call; `updateGameServerState` is an HTTP request that reads its gateway URL
  and API key from the environment; the callback only logs. The Agones SDK is not part of
  this model. `Shutdown` is recorded as an event and has no other effect.
- The gRPC transport and its metadata. A downstream call is recorded with its arguments
  and its `gateway` value, and it succeeds or fails as the outcome oracle says.
- Calls through an unset (nil) client, which panic in Go. Both clients are assumed to be
  configured.
- Socket failures:
  - the legacy server's `log.Fatalf` when a read or a write fails;
  - the current server's use of a nil sender after a failed read.

  Every read and every write is modelled as succeeding.
- A failed `Shutdown` or a failed write in the current server. The source only logs
  these, so they have no observable effect.
- All logging.
- The texts of the legacy errors. They never reach the wire, because the reply is
  `ERROR: \n` whatever the error, so they are modelled as the `Failure` datatype.
- The `Matches`, `AddrMatchID` and `AddrPlayerID` fields of the legacy server. No code
  reads or writes them.
- Unicode white space beyond ASCII in `TrimSpace`. Payload bytes are modelled one
  character per byte, so multi-byte UTF-8 is not decoded.
- The endless loop. It is modelled over a finite sequence of datagrams. A run ends
  either when the datagrams run out or when the process exits.
- Time and concurrency. The outcome of a downstream call may differ from one datagram
  to the next, and the oracle's datagram position stands for the moment of the call.
