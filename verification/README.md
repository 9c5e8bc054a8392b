# NeuroCache: a verified model

This project models the parts of NeuroCache whose correctness depends on loops, buffers and whole runs, and proves
what they promise. `dafny verify dfyconfig.toml` checks all of it.

| files | component |
|---|---|
| `Glob.dfy` | the glob matcher shared by key scans, channel patterns and access rules |
| `Bytes.dfy`, `Options.dfy` | bytes, ASCII case and optional values, shared by the others |
| `Decimal.dfy`, `Words.dfy`, `RespParser.dfy`, `RespGrammar.dfy`, `ReplyScanner.dfy`, `Output.dfy`, `Upstream.dfy`, `Pipeline.dfy` | the RESP front end: integers, the incremental request parser, the reply scanner and writers, the buffered output, the connection to the upstream with all its failures, and the loop that interleaves local and proxied commands |
| `WaitHub.dfy` | the wait/notify hub of blocking commands, as interleaved atomic steps |
| `Crdt.dfy`, `CrdtRegistry.dfy` | the four replicated data types, their runs, and the registry that updates them in place |
| `JobQueue.dfy` | the job queue: heap, reservations, dead letters |
| `Graph.dfy` | the triple index and breadth-first path search |
| `Clock.dfy`, `Budget.dfy`, `Quota.dfy` | sliding-window budgets and two-phase admission |
| `Breaker.dfy` | the circuit breaker: a ring of outcomes and a timed automaton |
| `Crc16.dfy`, `ClusterNode.dfy`, `ClusterState.dfy` | key slots, slot bitmaps, the ownership table and routing |
| `Acl.dfy`, `AclMeaning.dfy`, `AclFile.dfy`, `AclManager.dfy` | access rules, what they mean for decisions, the saved form of a user and of all users, and the registry that updates them in place |

Code that updates state is modelled by classes and loops, each proved against a function on values; the properties
of runs are lemmas about those functions or invariants every method keeps. Map iteration is an arbitrary choice
throughout. Clocks are nondecreasing and may advance between any two reads.

The RESP forms are those of the Redis serialization protocol specification (RESP2), sections "Bulk strings",
"Arrays" and "Sending commands to a Redis server"; the slots those of the Redis Cluster specification, sections
"Key distribution model", "Hash tags" and "MOVED Redirection".

## What the code does that its comments do not say

* `apps/rust-hotpath/src/server.rs:97`: on a malformed command the loop returns at once. Replies still pending from
  the upstream are not fetched and buffered replies are not flushed; likewise QUIT (line 301) ends the connection
  before the flush, so that its reply is never sent whole. `Connection.Handle`, `AllSentIff` and `LateRepliesAreLost`
  say what the client then has, and when that is everything; `QuitGoesUnanswered` and `MalformedLosesPending` are two
  connections it is not.
* `apps/rust-hotpath/src/commands.rs:1255-1277`, `apps/rust-hotpath/src/proxy.rs:274-292`: negating the least 64-bit
  integer overflows. Built for release the negation wraps, which is what is modelled, and the sign is written without
  digits (`ReadersUndoWrittenIff`); built for debugging the code panics there.
* `apps/rust-hotpath/src/proxy.rs:103-105`: when the upstream cannot be connected to, requests get an error line but
  stay in the outbox, and the loop does not look at the result of the flush (`apps/rust-hotpath/src/server.rs:111`).
  Once it can be reached again they are sent first, and later requests get their answers (`RefusalShiftsReplies`). A
  reply cut short by a broken connection stays in the buffer (line 132), and the next one is read as its continuation
  (`CutReplyRunsOn`). `OwnAnswersIff` is the exact condition for a batch, on the bytes and requests it finds there, for
  what `DrainPending` collects; what always holds is one reply per request, in order (`Connection.Handle`).
* `apps/api/internal/blocking/waiters.go:210-218`: a token may go to a waiter whose cancel has begun
  (`TokenMayGoToClosing`), that was woken for another of its keys and reads no more (`TokenMayGoToWoken`), or that an
  unblock has marked (`TokenMayGoToUnblocked`), and is then lost to the others. `TokenNeverWastedIff` says exactly when
  that cannot happen, and `TokenWaits` what may still become of a token well placed.
* `apps/api/internal/aiops/worker.go:229-235`: a requeue does not look at idempotency keys, so two live jobs may come
  to share one (`RequeueDuplicatesKey`); `Requeue` says exactly when.
* `apps/api/internal/aiops/circuit.go:147-201`: probes whose outcome is never recorded are not replaced, so callers can
  be turned away without end. What does end it is an operator, any report of a failure, or enough reports of success,
  also those of calls admitted before the trip; `BlockedUntilReportsIff` is the exact condition.
* `apps/api/internal/engine/quota_eval.go:56-60`: a negative amount passes the cost gate as "no budget configured" and
  is then refused by the charge, so the request is admitted and nothing is charged (`NegativeAmountIsAdmitted`).
* `apps/api/internal/acl/storage.go:130-135`: a category written `@ALL` in capitals is stored as "all" and saved as the
  rule that grants, or takes back, everything (`CapitalsAreUnsafe`). `ReloadKeepsDecisions` gives the exact condition
  for a faithful reload.
* `apps/api/internal/acl/storage.go:17-18`: the default user's saved rules are loaded over its sweeping grants, so
  restrictions other than denials do not survive a restart (`DefaultForgets`). `DefaultKeepsLogin` and
  `DefaultKeepsDecisions` give the exact conditions under which it does survive.
* `apps/api/internal/acl/storage.go:36-47`: names and rules are written as they are, and read up to the next blank. A
  pattern with a blank, as a command may set it, makes loading stop, and the users of later lines are lost
  (`BlankLosesUsers`). `FileSaysIff` and `RestartIsNoOpIff` are the exact conditions, `LoadGives` what any file does.
* `apps/api/internal/acl/acl.go:283-292`: a rule list is not rejected atomically; the rules before a malformed one stay
  (`RejectedYetApplied`), and so does a user made for it. `HarmlessIff` says exactly which lists change no user.
* `apps/api/internal/cluster/redirect.go:96-104`: an importing slot of our own answers MOVED to the peer, which is not
  the owner (`ImportingMovesToPeer`); `OwnSlotMovedIff` and `MovedAwayFromOwner` say exactly when.
* `apps/api/internal/cluster/state.go:59-69`: enabling with an id the table already knows can leave the table naming a
  node without the bits (`EnableOverKnownId`); `Enable` says exactly when.

## Model

| member | source | states |
|---|---|---|
| `Glob.Match` | apps/api/internal/glob/glob.go:22-54 | For every pattern and subject the iterative matcher decides the relation in which a star tries every suffix, a token takes one byte and an unclosed bracket never matches; its main loop runs at most \|s\|·(\|p\|+1)+\|p\| times. |
| `Glob.MatchToken` | apps/api/internal/glob/glob.go:60-89 | There is a usable token exactly when the pattern has one here, its length is the distance to the next token, and it matches exactly the bytes the token accepts. |
| `Glob.NewStarSubsumesOld` | apps/api/internal/glob/glob.go:29-33 | When a second star is reached, any match that the older star could still find by swallowing more is one the newer star finds too: the older star never needs revisiting. |
| `Glob.NoLaterChoiceAtEnd` | apps/api/internal/glob/glob.go:49-53 | When the subject is used up, no longer choice for the last star can match, so the answer may be read off the rest of the pattern. |
| `Glob.StepOntoStar` | apps/api/internal/glob/glob.go:29-33 | Recording a star changes neither what can still match nor the bookkeeping of tokens passed since the star. |
| `Glob.StepOverToken` | apps/api/internal/glob/glob.go:34-38 | Consuming a token and a byte keeps exactly the matches that are still possible. |
| `Glob.StepBack` | apps/api/internal/glob/glob.go:39-47 | When the token fails, nothing matches from here, and letting the last star swallow one more byte keeps exactly the matches that are left. |
| `Glob.UnclosedBracketNeverMatches` | apps/api/internal/glob/glob.go:69-79 | A pattern whose first opening bracket is never closed matches nothing. |
| `Glob.LiteralMatchesItself` | apps/api/internal/glob/glob.go:86-88 | A pattern without wildcards matches its own text and nothing else. |
| `Glob.MatchesIffCut` | apps/api/internal/glob/glob.go:22-89 | A pattern spelled as a list of elements matches exactly the subjects that can be cut into pieces, one for each element: any run for a star, any one byte for a question mark, one of the bytes between for a pair of brackets, the text itself for literal text. |
| `Glob.EveryPattern` | apps/api/internal/glob/glob.go:22-89 | Every pattern is such a list, or one followed by a bracket that is never closed, and then it matches nothing. |
| `Glob.BracketsMatch` | apps/api/internal/glob/glob.go:69-85 | Between two literal texts, brackets stand for exactly one of the bytes between them. |
| `Glob.QuestionMatches` | apps/api/internal/glob/glob.go:67-68 | A question mark there stands for any one byte. |
| `Glob.StarMatches` | apps/api/internal/glob/glob.go:22-48 | A star there stands for any run of bytes, also an empty one. |
| `Decimal.ParseI64` | apps/rust-hotpath/src/resp.rs:157-186 | The wrapping reader accepts exactly optionally signed digit strings and yields their value reduced to 64 bits, the sign applied last. |
| `Decimal.ParseInt` | apps/rust-hotpath/src/proxy.rs:240-260 | The checked reader accepts exactly signed digit strings whose magnitude fits 63 bits and yields their exact value (commands.rs has the same function as parse_signed). |
| `Decimal.WriteInt` | apps/rust-hotpath/src/proxy.rs:274-292 | Filling a 20-byte buffer from the end and appending it appends the decimal form of the number; for the least 64-bit integer, whose negation wraps, the sign alone. |
| `Decimal.FormatIntInto` | apps/rust-hotpath/src/commands.rs:1255-1277 | The other integer printer writes the same bytes at the given place, also for the least integer, leaves every other byte alone and returns their number, at most 20. |
| `Decimal.FillDigits` | apps/rust-hotpath/src/commands.rs:1261-1268 | The digit loop leaves exactly the decimal digits in the tail of the buffer. |
| `Decimal.ReadersUndoPrint` | apps/rust-hotpath/src/commands.rs:1255-1300 | Both integer readers recover every number other than the least 64-bit one from its decimal form. |
| `Decimal.ReadersUndoWrittenIff` | apps/rust-hotpath/src/commands.rs:1255-1300 | Each reader recovers what a printer wrote exactly when the number is not the least 64-bit integer. |
| `RespGrammar.NumeralIff` | apps/rust-hotpath/src/proxy.rs:240-260 | An integer is an optional plus or minus and at least one digit, and denotes what the digits do, with the sign. |
| `RespGrammar.PlaceValue` | apps/rust-hotpath/src/proxy.rs:252-258 | Appending a digit multiplies the number by ten and adds the digit. |
| `RespGrammar.NoZeroInFront` | apps/rust-hotpath/src/commands.rs:1255-1277 | A positive number is printed without leading zeros. |
| `RespParser.ParseCommand` | apps/rust-hotpath/src/resp.rs:28-36 | Parsing the buffer reports the first command, a malformed one, or that bytes are missing; a command is cut off the front exactly and otherwise the buffer keeps all its bytes. |
| `RespParser.ParseArray` | apps/rust-hotpath/src/resp.rs:40-105 | The two-pass array parser, which measures first and slices the frame afterwards, computes the same result as reading one bulk after another. |
| `RespParser.ParseInline` | apps/rust-hotpath/src/resp.rs:110-130 | The inline form: the words of the first line, and the line with its end removed from the buffer. |
| `RespParser.ReadIntLine` | apps/rust-hotpath/src/resp.rs:134-141 | The integer before the first line end, or that the line is unfinished or not a number. |
| `RespParser.FindCrlf` | apps/rust-hotpath/src/resp.rs:144-151 | Finds the first line end at or after a position, or reports that there is none. |
| `RespParser.ParseStable` | apps/rust-hotpath/src/resp.rs:28-141 | A command or an error that has been recognised is recognised again, with the same bytes used, whatever bytes arrive later. |
| `RespParser.DrainAppend` | apps/rust-hotpath/src/server.rs:96-137 | Draining what is buffered and then draining the remainder with new bytes appended is the same as draining everything at once, up to the first error. |
| `RespParser.ChunkingIrrelevant` | apps/rust-hotpath/src/server.rs:90-137 | For every byte stream and every way of cutting it into reads, the read loop yields the commands and the error that parsing the whole stream at once yields. |
| `RespParser.CutsAgree` | apps/rust-hotpath/src/server.rs:90-137 | Any two ways of cutting the same stream give the same commands, the same error and the same remainder. |
| `RespParser.SendOnly` | apps/rust-hotpath/src/proxy.rs:81-93 | Serialising a command appends its array-of-bulks form to the outbox. |
| `RespParser.RequestRoundTrip` | apps/rust-hotpath/src/proxy.rs:81-93 | Parsing a serialised argument list followed by any bytes returns that list and leaves exactly those bytes. |
| `RespParser.RequestPrefixIncomplete` | apps/rust-hotpath/src/resp.rs:40-105 | Every proper prefix of a serialised command is reported as incomplete, never as an error or a shorter command. |
| `RespParser.PipelineRoundTrip` | apps/rust-hotpath/src/proxy.rs:81-119 | A batch of serialised commands drains to exactly those commands with nothing left over. |
| `RespParser.InlineRoundTrip` | apps/rust-hotpath/src/resp.rs:110-130 | A line of words separated by spaces parses to those words. |
| `RespGrammar.ArrayIff` | apps/rust-hotpath/src/resp.rs:40-105 | A command sent as an array is recognised exactly when its text stands at the front of the buffer, written out with literal bytes, and exactly that text is used. |
| `RespGrammar.BrokenIff` | apps/rust-hotpath/src/resp.rs:40-105 | Such a buffer is malformed exactly when its count is no integer, or when after some of the arguments and before the last something stands that can be none: another kind, a size that is no integer, or no line end where the size says. |
| `RespGrammar.InlineIff` | apps/rust-hotpath/src/resp.rs:110-130 | A command sent in a line is recognised exactly when all of the line is there, and is the words of the line. |
| `RespGrammar.InlineIsNeverBroken` | apps/rust-hotpath/src/resp.rs:110-130 | Such a buffer is never malformed. |
| `Words.FieldsIff` | apps/rust-hotpath/src/resp.rs:119-129 | The fields of a line are exactly the words it consists of, with blanks around and between them. |
| `ReplyScanner.ScanOne` | apps/rust-hotpath/src/proxy.rs:187-229 | The recursive scanner with its element loop computes the end of the first reply, and finds none when it is unfinished or not a reply. |
| `ReplyScanner.ScanStable` | apps/rust-hotpath/src/proxy.rs:187-229 | An end that has been found stays the same when more bytes arrive. |
| `ReplyScanner.ScanNeedsNoMore` | apps/rust-hotpath/src/proxy.rs:191-229 | And it is found as soon as the last byte of the reply is there: nothing beyond that is looked at. |
| `ReplyScanner.ReplyRoundTrip` | apps/rust-hotpath/src/proxy.rs:191-229 | Scanning any reply, nested to any depth and followed by any bytes, finds exactly its length. |
| `ReplyScanner.RepliesRoundTrip` | apps/rust-hotpath/src/proxy.rs:221-225 | The same for any list of replies inside an array. |
| `ReplyScanner.ReplyPrefixIncomplete` | apps/rust-hotpath/src/proxy.rs:191-229 | Every proper prefix of a reply is reported as incomplete. |
| `ReplyScanner.WriteBulkReply` | apps/rust-hotpath/src/commands.rs:1195-1203 | The bulk writer appends exactly a bulk-string reply. |
| `ReplyScanner.WriteIntReply` | apps/rust-hotpath/src/commands.rs:1205-1211 | The integer writer appends exactly an integer reply if and only if the number is not the least 64-bit one. |
| `ReplyScanner.WriteArrayHeaderReply` | apps/rust-hotpath/src/commands.rs:1213-1225 | The array header writer followed by that many replies is exactly an array reply; a negative size is the null array. |
| `RespGrammar.ReplyForms` | apps/rust-hotpath/src/commands.rs:1187-1225 | The forms of replies in literal bytes. |
| `Pipeline.Connection.Handle` | apps/rust-hotpath/src/server.rs:73-152 | For every way a stream arrives and whatever the network to the upstream does: if no command is malformed and none is QUIT, the client has been sent exactly one reply per non-empty command, in request order, those made here being the right ones and the others one complete reply each; if that network never fails, all of them are the right ones. Otherwise the commands handled are those before the end, all replies due at the last flush have been sent, and later ones were held back as long as the 64 KiB writer could hold them. However much was written, a connection ended by QUIT has not sent every reply, unless that of QUIT alone fills the writer. |
| `Pipeline.Connection.HandleRead` | apps/rust-hotpath/src/server.rs:90-151 | One outer iteration: after it every complete command so far has been answered in order and nothing is pending, or it ended at QUIT or at a malformed command and what it wrote stayed in the writer as long as that could hold it. |
| `Pipeline.Connection.AllSentIff` | apps/rust-hotpath/src/server.rs:138-150 | What has been sent is always a beginning of the replies written, and one reply for each command exactly when none is pending and none is held back. |
| `Pipeline.Connection.AllSentMeans` | apps/rust-hotpath/src/server.rs:138-150 | As long as the network has not failed, those replies are the ones the commands are owed. |
| `Pipeline.Connection.LateRepliesAreLost` | apps/rust-hotpath/src/server.rs:96-150 | When a connection ends early, the client has every reply exactly when the bytes read since the last flush completed no command, however many replies were written in between, unless the last one alone fills the writer. |
| `Pipeline.Connection.NoneSentSince` | apps/rust-hotpath/src/server.rs:96-150 | With less than a writer full of replies since that flush, the client has those up to it and no more. |
| `Pipeline.ServedHereIff` | apps/rust-hotpath/src/server.rs:104-105 | A command is served here exactly when one of the names served here, in capitals, is its own but for the case of letters. |
| `Bytes.FoldIff` | apps/rust-hotpath/src/resp.rs:193-207 | Folding makes two texts equal exactly when they are the same but for the case of the letters a to z. |
| `Pipeline.QuitIff` | apps/rust-hotpath/src/server.rs:301-304 | The command that ends a connection is "quit" in any case, and no other. |
| `Pipeline.OwedForNext` | apps/rust-hotpath/src/server.rs:104-135 | What a further command is owed, in the names served here: the reply made here, the answer of the upstream to the commands forwarded so far and this one, or the error for its name. |
| `Pipeline.Connection.WrittenFor` | apps/rust-hotpath/src/server.rs:104-135 | What was written for each command, likewise, whatever the network did. |
| `Pipeline.OneCommand` | apps/rust-hotpath/src/server.rs:73-152 | A client that sends one command in a line gets the reply made here exactly if a name served here is its own but for case, else the answer of the upstream or the error. |
| `Pipeline.SmallLettersWillDo` | apps/rust-hotpath/src/server.rs:104-105 | "get k" is answered here when GET is served here. |
| `Pipeline.QuitGoesUnanswered` | apps/rust-hotpath/src/server.rs:301-304 | A client that sends only QUIT, in any case, is owed a reply and gets none. |
| `Pipeline.MalformedLosesPending` | apps/rust-hotpath/src/server.rs:96-137 | A forwarded command followed by a malformed one in the same read is never answered. |
| `Output.Writer.Put` | apps/rust-hotpath/src/server.rs:79-81 | Output keeps its order, nothing sent is taken back, nothing is sent before a flush while it fits the buffer, and a piece smaller than the buffer is never sent whole at once. |
| `Pipeline.Connection.Serve` | apps/rust-hotpath/src/server.rs:101-134 | One command, answered locally after the pending replies were collected, queued for the upstream, or refused, keeps the account of which replies are owed and which were written. |
| `Pipeline.Connection.DrainPending` | apps/rust-hotpath/src/server.rs:109-117 | Sending the outbox and collecting leaves no command without a reply, whether or not anything failed. If nothing fails now, the replies are what scanning cuts off the bytes left from before and the answers to all that was in the outbox; requests stay in the outbox exactly for want of a connection. |
| `Pipeline.Connection.RecvAll` | apps/rust-hotpath/src/server.rs:144-146 | One piece is written per pending request, in order: first those that scanning one after another cuts off the bytes there are, then, if the stream ends, error lines; when reads work there are as many of the first kind as requests, or all there can be. |
| `Upstream.UpstreamConn.ReadOneReply` | apps/rust-hotpath/src/proxy.rs:161-181 | Computes the outcome of reading as a function of how the bytes arrive; the first complete reply is returned whole and the rest stays; if the stream ends before, what has arrived stays buffered. |
| `Upstream.ReadFromMeans` | apps/rust-hotpath/src/proxy.rs:161-181 | However the bytes arrive, that outcome is the first reply the scanner finds in all of them, if they do arrive. |
| `Upstream.UpstreamConn.RecvOne` | apps/rust-hotpath/src/proxy.rs:124-137 | The client gets one stretch of bytes that the scanner takes for a complete reply, or else one error line, and then the connection is dropped. |
| `Upstream.UpstreamConn.FlushSend` | apps/rust-hotpath/src/proxy.rs:97-119 | Succeeds exactly when there is nothing to send or connecting and writing both work, and then the upstream sees exactly the queued commands; without a connection they stay queued, and after a broken write they are gone while some of them may have been served. |
| `Upstream.OwnAnswersIff` | apps/rust-hotpath/src/proxy.rs:97-181 | What a batch collects are its own answers, whatever the upstream answers, exactly when it finds not a single byte in the buffer or on its way, be it a reply or a part of one, and no earlier request in the outbox. |
| `Upstream.SentIsReceived` | apps/rust-hotpath/src/proxy.rs:187-229 | Scanning well-formed replies one after another gives them back as they were sent. |
| `Upstream.RefusalShiftsReplies` | apps/rust-hotpath/src/proxy.rs:97-119 | After one refused connection any second request gets the answer to the first. |
| `Upstream.CutReplyRunsOn` | apps/rust-hotpath/src/proxy.rs:69-181 | After a status reply of which one byte arrived before the stream closed, with nothing left in the outbox or on its way, a second request whose answer is a number gets that number as a status line. |
| `Pipeline.BatchReplies` | apps/rust-hotpath/src/server.rs:141-149 | The upstream's answers to a batch are the replies the client expects for it. |
| `WaitHub.InvKept` | apps/api/internal/blocking/waiters.go:83-145 | Every atomic step of register, cancel, notify, notify-all and unblock keeps the invariant: the counter is exact, every live waiter without a token is in each of its keys' sets or held by a notify-all, the indexes hold only registered waiters, no empty set is kept. |
| `WaitHub.ReachableInv` | apps/api/internal/blocking/waiters.go:83-306 | The invariant holds in every state any interleaving of those steps can reach. |
| `WaitHub.CounterKept` | apps/api/internal/blocking/waiters.go:107-145 | The counter, updated outside the mutex, always equals the number of waiters counted in and not yet counted out. |
| `WaitHub.NoLostWakeup` | apps/api/internal/blocking/waiters.go:197-229 | Whenever a notify returns false, by the fast path or after the scan, a live waiter for the key that was never sent a token is held by a notify-all in flight. |
| `WaitHub.LiveIsCounted` | apps/api/internal/blocking/waiters.go:201-203 | While a registered waiter is counted the fast path is not taken. |
| `WaitHub.TokenGoesToSubscriber` | apps/api/internal/blocking/waiters.go:210-218 | A notify's token goes into the empty channel of one waiter that subscribed to the key, and no other waiter changes. |
| `WaitHub.TokenMayGoToClosing` | apps/api/internal/blocking/waiters.go:117-133 | A concrete run in which the token goes to a waiter whose cancel has begun while a live one keeps waiting. |
| `WaitHub.TokenMayGoToWoken` | apps/api/internal/blocking/waiters.go:195-218 | A run over two keys in which no cancel is under way: the token goes to a waiter whose only read has been made for the first key, while a live one keeps waiting on the second. |
| `WaitHub.TokenMayGoToUnblocked` | apps/api/internal/blocking/waiters.go:271-306 | A run in which the token goes to a waiter that an unblock has marked but not yet woken, while a live one keeps waiting. |
| `WaitHub.TokenNeverWastedIff` | apps/api/internal/blocking/waiters.go:197-229 | Whichever waiter a scan chooses is one that is live and was sent nothing before exactly when every subscriber of the key with an empty channel is neither cancelling nor woken before; it is also one that will use the token exactly when, besides, none of those is marked by an unblock. |
| `WaitHub.TokenReachesEager` | apps/api/internal/blocking/waiters.go:197-229 | Then a notify that returns true has put its token before a waiter that has its one read yet to make and has not been told to give up. |
| `WaitHub.TokenWaits` | apps/api/internal/blocking/waiters.go:169-190 | What becomes of such a token over any further run: until it is received it stays in the channel, and its waiter gives up exactly when its own cancel begins or an unblock marks it. |
| `WaitHub.TokenStaysUntilReceived` | apps/api/internal/blocking/waiters.go:169-190 | A token stays in its channel until the waiter takes it. |
| `WaitHub.ClosedStaysClosed` | apps/api/internal/blocking/waiters.go:116-124 | Cancelling is final: no step makes a closed waiter live again. |
| `WaitHub.BroadcastReachesAll` | apps/api/internal/blocking/waiters.go:233-248 | When a notify-all ends, every waiter that was in the key's set has been sent a token. |
| `WaitHub.UnblockReachesAll` | apps/api/internal/blocking/waiters.go:271-306 | When an unblock ends, every waiter of the client it found has been sent a token and marked, with the error if it was to give one, or had been closed. |
| `WaitHub.UnblockFindsAll` | apps/api/internal/blocking/waiters.go:271-286 | It goes ahead exactly when the client has a waiter that has not left the index, and it finds exactly those. |
| `WaitHub.BroadcastFindsAll` | apps/api/internal/blocking/waiters.go:233-241 | A notify-all takes every hopeful waiter of the key that no other one holds. |
| `WaitHub.UnblockedIff` | apps/api/internal/blocking/waiters.go:156-164 | In any run, a waiter says that it was unblocked exactly when a step has marked it. |
| `WaitHub.UnblockedErrIff` | apps/api/internal/blocking/waiters.go:148-154 | And that it was unblocked with an error exactly when that step belonged to an unblock begun with one. |
| `WaitHub.SentIff` | apps/api/internal/blocking/waiters.go:210-218 | It has been sent a token exactly when some step sent it one. |
| `WaitHub.FullIff` | apps/api/internal/blocking/waiters.go:169-190 | Its channel holds a token exactly when one was sent to it since its last receive. |
| `WaitHub.RegisteredIff` | apps/api/internal/blocking/waiters.go:83-109 | It is known from the step that registers it, with the keys and the client given there. |
| `WaitHub.TokenNamesKey` | apps/api/internal/blocking/waiters.go:166-190 | What a wait returns is one of its keys, or nothing, and then the waiter has been marked by an unblock. |
| `WaitHub.CallGoesOn` | apps/api/internal/blocking/waiters.go:197-306 | No call gets stuck: as soon as it can have the mutex it has a next step, and each of its steps leaves it fewer to do. |
| `WaitHub.WaiterGoesOn` | apps/api/internal/blocking/waiters.go:83-146 | Nor does a waiter: from registration to the end of its cancel it can go on, at the latest when the mutex is free. |
| `WaitHub.QuiescentIsEmpty` | apps/api/internal/blocking/waiters.go:116-146 | When every waiter has finished cancelling and no call is under way, both indexes are empty and the counter is zero: nothing leaks. |
| `JobQueue.Queue.Enqueue` | apps/api/internal/aiops/worker.go:89-117 | A key already pending or reserved returns that job and changes nothing; otherwise one new job with a never-used id is added; distinct live keys and the attempts bound are kept. |
| `JobQueue.Queue.Dequeue` | apps/api/internal/aiops/worker.go:123-138 | Reserves the waiting job whose priority no other exceeds and, among those of that priority, the one of lowest id, with one more attempt and a new deadline; none exactly when the heap is empty. |
| `JobQueue.TakeInARow` | apps/api/internal/aiops/worker.go:119-138 | Jobs taken in a row come out with priorities never rising, and ids rising among equal ones. |
| `JobQueue.NewestKeeps` | apps/api/internal/aiops/worker.go:172-178 | A dead letter is kept, and before it as many as the cap allows, in order. |
| `JobQueue.Queue.Ack` | apps/api/internal/aiops/worker.go:141-153 | Acknowledges exactly a reserved job, which then is in no other place. |
| `JobQueue.Queue.Nack` | apps/api/internal/aiops/worker.go:159-192 | A reserved job goes to the dead letters when its attempts are used up, otherwise back to the heap or to a delayed reservation; no other job changes but for its place in the heap. |
| `JobQueue.Queue.Requeue` | apps/api/internal/aiops/worker.go:222-239 | A dead letter goes back to the heap with no attempts; live idempotency keys stay distinct exactly when its key is empty or not in use. |
| `JobQueue.RequeueDuplicatesKey` | apps/api/internal/aiops/worker.go:222-239 | A queue whose dead letter is requeued after its key was used again: two live jobs share the key. |
| `JobQueue.Queue.Configure` | apps/api/internal/aiops/worker.go:242-252 | Changes only positive tunables; the attempts bound survives when the maximum is not lowered. |
| `JobQueue.Queue.Sweep` | apps/api/internal/aiops/worker.go:322-348 | Every reservation past its deadline, in whatever order, goes back to the heap without a deadline or to the dead letters, whose list is then exactly the newest of the old ones followed by those; no other job changes but for its place in the heap. |
| `JobQueue.Queue.HeapPush` | apps/api/internal/aiops/worker.go:62 | Adding a job at the end and moving it up keeps the heap ordered and every job's index right, and adds only that job. |
| `JobQueue.Queue.HeapPop` | apps/api/internal/aiops/worker.go:63 | Removes the first job, keeps the others ordered and their indexes right. |
| `JobQueue.Queue.Swap` | apps/api/internal/aiops/worker.go:61 | Swapping two jobs keeps every job's index equal to its place. |
| `JobQueue.RootIsFirst` | apps/api/internal/aiops/worker.go:55-60 | In an ordered heap the root comes before every other job. |
| `JobQueue.Reserve` | apps/api/internal/aiops/worker.go:123-138 | Moving an id from waiting to reserved keeps each issued id in exactly one place. |
| `JobQueue.Bury` | apps/api/internal/aiops/worker.go:172-178 | Dead-lettering with the oldest entries trimmed keeps each issued id in exactly one of waiting, reserved, dead, acknowledged and trimmed. |
| `JobQueue.TrimmedIds` | apps/api/internal/aiops/worker.go:174-177 | The capped dead-letter list splits into what is kept and what is trimmed, with no id in both. |
| `JobQueue.UniqueKeysGrow` | apps/api/internal/aiops/worker.go:89-105 | Adding a job keeps live keys distinct exactly when its key is empty or unused. |
| `Graph.Graph.Link` | apps/api/internal/aiops/graph.go:33-55 | Adds exactly one triple, says whether it was new, and keeps the inbound index the exact transpose of the outbound one and the count the number of triples. |
| `Graph.Graph.Unlink` | apps/api/internal/aiops/graph.go:58-83 | Removes exactly one triple, likewise, leaving no empty inner maps. |
| `Graph.Graph.In` | apps/api/internal/aiops/graph.go:114-135 | The subjects with an edge to the object under the filter, no more and no fewer. |
| `Graph.Graph.Path` | apps/api/internal/aiops/graph.go:141-187 | For every map iteration order: when some chain of triples leads to the target within the depth, six hops unless told otherwise, all with the wanted predicate if one is, then one of minimum length is returned, and false exactly when none does. |
| `Graph.TwoWays` | apps/api/internal/aiops/graph.go:141-187 | Three triples with two ways to the target: the filter picks the longer one, which one hop is too few for. |
| `Graph.Graph.Expand` | apps/api/internal/aiops/graph.go:168-184 | Walking one node's edges either finds the target by a shortest path or keeps the frontier sound and everything explored so far closed. |
| `Graph.ReachedIsSeen` | apps/api/internal/aiops/graph.go:155-186 | Every node reachable in few enough hops has been seen, at no greater depth. |
| `Graph.Found` | apps/api/internal/aiops/graph.go:178-180 | The path returned when the target is met is a shortest one. |
| `Graph.NothingLeft` | apps/api/internal/aiops/graph.go:158-186 | An empty queue means the target cannot be reached within the depth. |
| `Graph.InsertedTriples` | apps/api/internal/aiops/graph.go:36-45 | Inserting into the nested maps adds exactly one triple and leaves no empty inner map. |
| `Graph.DeletedTriples` | apps/api/internal/aiops/graph.go:67-73 | Deleting from the nested maps removes exactly one triple and leaves no empty inner map. |
| `Budget.AdmissionKeepsLimit` | apps/api/internal/aiops/cost.go:71-77 | Admitting a charge that fits what is still in the window keeps every interval of the window's length, wherever it lies, within the budget, though the cutoff and the stamp come from two clock reads. |
| `Budget.RecordingKeeps` | apps/api/internal/aiops/cost.go:76 | Recording the charge keeps the lazily compacted list consistent with the whole history. |
| `Budget.DroppingKeeps` | apps/api/internal/aiops/cost.go:172-184 | Dropping the expired front of the list keeps it consistent with the whole history. |
| `Budget.WindowOfLive` | apps/api/internal/aiops/cost.go:172-184 | An interval that misses everything dropped holds at most what is kept, including when the limits were changed in between. |
| `Budget.LiveShrinks` | apps/api/internal/aiops/cost.go:172-184 | As time passes the sum that counts only shrinks. |
| `Budget.LiveGrows` | apps/api/internal/aiops/cost.go:172-184 | A further charge never lowers it. |
| `Budget.CostBudgets.NoWindowOverspends` | apps/api/internal/aiops/cost.go:61-78 | After any run of operations, the charges recorded since the limits were set sum to at most the budget in every interval of the window's length. |
| `Budget.CostBudgets.Charge` | apps/api/internal/aiops/cost.go:61-78 | Allowed exactly when the tenant has no budget or the charge fits; then exactly one charge is recorded for that tenant and none otherwise. A refused charge is negative, or would have put what was charged in the window ending then above the budget; one that was affordable before the call is allowed. |
| `Budget.Tenant.UsedIsWindow` | apps/api/internal/aiops/cost.go:172-193 | What counts at a time is at least what has been charged since the limits were set in the window ending then, and at most what has been charged in it at all; with the first limits in force, exactly that. |
| `Budget.CostBudgets.Peek` | apps/api/internal/aiops/cost.go:86-102 | Decides exactly as a charge at the same time would, records nothing, and what was affordable is allowed. |
| `Budget.CostBudgets.StaysAffordable` | apps/api/internal/aiops/cost.go:86-102 | An affordable charge stays affordable as time passes, so an allowed peek with no charge in between implies that the charge succeeds. |
| `Budget.CostBudgets.SetBudget` | apps/api/internal/aiops/cost.go:41-55 | Changes one tenant's limits, rejects a window that is not positive, leaves other tenants alone. |
| `Budget.CostBudgets.Reset` | apps/api/internal/aiops/cost.go:118-127 | Clears one tenant's record and keeps its limits. |
| `Budget.Tenant.Compact` | apps/api/internal/aiops/cost.go:172-184 | Leaves exactly the charges that are not older than the window. |
| `Budget.Tenant.Spent` | apps/api/internal/aiops/cost.go:187-193 | Adds up the list. |
| `Quota.Engine.Evaluate` | apps/api/internal/engine/quota_eval.go:28-199 | A refused, denied or simulated admission takes nothing from any gate; a committed one takes from exactly the gates that had room, never the market, and charges the tenant exactly as often as the cost gates report, also when others charge the same budgets between its phases. The cost gate had room exactly when the amount was affordable as it was asked, and pays exactly when it still is as it pays; without such charges it does. The verdict, the denying gates in order and the longest delay agree with the gates reported; a refusal names the first gate that is unknown or lacks parameters. |
| `Quota.Engine.Elsewhere` | apps/api/internal/engine/quota_eval.go:181-184 | What others charge between the phases is added to the records, and never makes room. |
| `Quota.DistinctGatesChargeOnce` | apps/api/internal/engine/quota_eval.go:185-193 | For a policy that names each gate once, a committed admission nobody interferes with charges the tenant exactly once when the cost gate had room and the amount is not negative, and otherwise not at all. |
| `Quota.DecisionMeans` | apps/api/internal/engine/quota_eval.go:161-199 | A decision gate by gate: admitted when any, or all, of the gates allow, denied by exactly those that do not, and what is taken comes from gates that had room, never the market. |
| `Quota.GateNames` | apps/api/internal/aiops/quota.go:124-163 | The words for the gates and the modes, in any case. |
| `Quota.NegativeAmountIsAdmitted` | apps/api/internal/engine/quota_eval.go:56-69 | A negative amount passes the cost gate and is admitted, yet nothing is charged. |
| `Quota.Engine.PeekAll` | apps/api/internal/engine/quota_eval.go:46-159 | The first phase fails exactly when some gate is unknown or lacks parameters, at the first such gate, and records nothing. |
| `Quota.Engine.ConsumeAll` | apps/api/internal/engine/quota_eval.go:185-193 | From any state, the second phase takes from the gates that had room, in order, and reports for each whether it really did: the cost gate exactly if it has room at that time. |
| `Quota.Verdict` | apps/api/internal/engine/quota_eval.go:161-173 | Counts the gates that allow, lists those that do not, and keeps the longest delay. |
| `Quota.NoneDenied` | apps/api/internal/engine/quota_eval.go:174-178 | No gate denies exactly when all allow, and all deny exactly when none allows. |
| `Quota.Define` | apps/api/internal/aiops/quota.go:124-163 | A policy is accepted exactly with a name, a known mode and at least one gate, all known; case and white space around words do not matter, and each gate is kept once. |
| `Breaker.NoAdmissionBeforeCooldown` | apps/api/internal/aiops/circuit.go:139-158 | In every run without reset or reconfiguration, no check is admitted before the cool-down has passed since the breaker last opened. |
| `Breaker.ProbesAreLimited` | apps/api/internal/aiops/circuit.go:147-154 | Each probing episode admits at most the configured number of calls. |
| `Breaker.ShutsOnlyAfterSuccesses` | apps/api/internal/aiops/circuit.go:175-201 | The breaker closes again only after a probing episode with exactly the configured number of reported successes and no reported failure. |
| `Breaker.BlockedUntilReportsIff` | apps/api/internal/aiops/circuit.go:147-201 | A breaker that has given out all its probes turns everyone away, without an operator, for exactly as long as no failure is reported and the successes reported, by whomever, fall short of the number needed. |
| `Breaker.BlockedAdmitsNobody` | apps/api/internal/aiops/circuit.go:147-154 | While that lasts no caller is admitted, and while probing nobody else is turned away. |
| `Breaker.ProbesCanAllBeOut` | apps/api/internal/aiops/circuit.go:139-158 | A run from a closed breaker to one with every probe out and none reported. |
| `Breaker.EpisodeCounts` | apps/api/internal/aiops/circuit.go:148-190 | The probe counters equal what the run admitted and what succeeded in the current episode. |
| `Breaker.RingPush` | apps/api/internal/aiops/circuit.go:204-212 | Writing at the cursor and advancing it keeps the ring holding the latest outcomes. |
| `Breaker.RingIsWindow` | apps/api/internal/aiops/circuit.go:208-220 | The filled cells are, as a multiset, the latest outcomes recorded while closed, so counting failures in place counts theirs. |
| `Breaker.Breaker.Record` | apps/api/internal/aiops/circuit.go:165-232 | Recording is a step of the automaton; while closed it trips exactly when of the latest outcomes, as many as the window holds, there are enough and the share of failures reaches the threshold; while probing a failure opens it and the last success needed closes it. |
| `Breaker.TooManyMeans` | apps/api/internal/aiops/circuit.go:213-228 | That is decided by the number of failed ones among the latest outcomes. |
| `Breaker.Breaker.RecordProbe` | apps/api/internal/aiops/circuit.go:175-201 | A reported failure reopens; the last success needed closes with nothing recorded. |
| `Breaker.Breaker.RecordOutcome` | apps/api/internal/aiops/circuit.go:202-229 | An outcome recorded while closed joins the window and trips exactly when the window says so. |
| `Breaker.Breaker.PushOutcome` | apps/api/internal/aiops/circuit.go:203-222 | The ring and its count decide exactly as the list of latest outcomes would. |
| `Breaker.Breaker.Check` | apps/api/internal/aiops/circuit.go:139-159 | A check is a step of the automaton, admitted exactly when the automaton admits: while closed, once the cool-down is over, or while a probe is left. |
| `Breaker.TurnedAwayOnlyIf` | apps/api/internal/aiops/circuit.go:139-159 | In any run a caller is turned away only when the breaker has opened less than a cool-down ago, or when it probes and as many callers as there are probes have been let through, with no failure since. |
| `Breaker.Breaker.Transition` | apps/api/internal/aiops/circuit.go:368-379 | An open breaker starts probing exactly when the cool-down has passed. |
| `Breaker.Breaker.Trip` | apps/api/internal/aiops/circuit.go:236-252 | An operator's trip opens at the current time. |
| `Breaker.Breaker.Reset` | apps/api/internal/aiops/circuit.go:256-273 | Back to closed with nothing recorded. |
| `Breaker.Breaker.Configure` | apps/api/internal/aiops/circuit.go:107-133 | Changes only positive tunables; a new window size empties the ring and only that does. |
| `Crc16.Crc` | apps/api/internal/cluster/crc16.go:37-43 | The table-driven loop yields, for every message, the remainder of bit-serial long division by the polynomial. |
| `Crc16.RemainderIsRemainder` | apps/api/internal/cluster/crc16.go:16-43 | What the register holds at the end is a polynomial of degree below sixteen that differs from the message, moved up by sixteen places, by a multiple of the generator: it really is the remainder. |
| `Crc16.FeedDivides` | apps/api/internal/cluster/crc16.go:22-28 | One step multiplies by the variable, adds the incoming bit and takes the generator away exactly when it went in. |
| `Crc16.MakeTable` | apps/api/internal/cluster/crc16.go:18-32 | Each table entry is the result of eight division steps on its index. |
| `Crc16.RoundIsEightSteps` | apps/api/internal/cluster/crc16.go:40 | One lookup and shift is eight steps of the division. |
| `Crc16.RemainderStep` | apps/api/internal/cluster/crc16.go:37-43 | Appending a byte to a message, with sixteen zero bits after it, is adding the byte to the top of the register and taking eight steps. |
| `Crc16.ChecksumLinear` | apps/api/internal/cluster/crc16.go:37-43 | The checksum of the bytewise sum of two messages of equal length is the sum of their checksums. |
| `Crc16.KeySlot` | apps/api/internal/cluster/crc16.go:49-68 | The two search loops and the checksum compute the slot of the key's hash tag, below 16384. |
| `Crc16.SameTagSameSlot` | apps/api/internal/cluster/crc16.go:45-48 | Keys whose first opening and next closing brace enclose the same non-empty tag share a slot, which is the slot of the tag itself. |
| `Crc16.SlotIsRemainder` | apps/api/internal/cluster/crc16.go:61-67 | The slot is the checksum modulo 16384. |
| `Crc16.BracesDecide` | apps/api/internal/cluster/crc16.go:49-66 | What stands between the first opening brace and the next closing one decides, if it is not empty. |
| `Crc16.NoBraces` | apps/api/internal/cluster/crc16.go:67 | Without such a pair the whole key does. |
| `Crc16.EmptyBraces` | apps/api/internal/cluster/crc16.go:57-67 | An empty pair is none. |
| `Crc16.SlotOfFoo` | apps/api/internal/cluster/crc16_test.go:13 | The slot of "foo" is 12182. |
| `Crc16.SlotOfBar` | apps/api/internal/cluster/crc16_test.go:14 | The slot of "bar" is 5061. |
| `Crc16.SlotOfHello` | apps/api/internal/cluster/crc16_test.go:15 | The slot of "hello" is 866. |
| `Crc16.SlotOfDigits` | apps/api/internal/cluster/crc16_test.go:16 | The slot of "123456789" is 12739. |
| `Crc16.HashedPartIsTag` | apps/api/internal/cluster/crc16.go:50-66 | What is hashed is the tag when there is one and the whole key when there is none. |
| `Crc16.TagUnique` | apps/api/internal/cluster/crc16.go:50-66 | A key has at most one hash tag. |
| `ClusterNode.Node.HasSlot` | apps/api/internal/cluster/node.go:116-123 | Reads the slot's bit; slots out of range are not there. |
| `ClusterNode.Node.AddSlot` | apps/api/internal/cluster/node.go:126-138 | Sets that slot and no other, and says whether it was clear. |
| `ClusterNode.Node.DelSlot` | apps/api/internal/cluster/node.go:140-152 | Clears that slot and no other, and says whether it was set. |
| `ClusterNode.Node.SlotRanges` | apps/api/internal/cluster/node.go:156-175 | The runs are in order, disjoint and not adjacent, and cover exactly the slots set. |
| `ClusterNode.RangesUnique` | apps/api/internal/cluster/node.go:154-175 | A set of slots has only one such list of runs. |
| `ClusterNode.Node.AddRanges` | apps/api/internal/cluster/gossip.go:237-241 | Taking in runs adds exactly the slots in them that are in range. |
| `ClusterNode.RunsRebuildBitmap` | apps/api/internal/cluster/gossip.go:237-241 | A node without slots that takes in another's runs ends up with the very same bitmap. |
| `ClusterNode.Node.NumSlots` | apps/api/internal/cluster/node.go:178-189 | Clearing the lowest bit of each byte until none is left counts exactly the slots set. |
| `ClusterNode.ClearLowest` | apps/api/internal/cluster/node.go:183-186 | Each such step removes exactly one bit. |
| `ClusterState.State.AssignSlot` | apps/api/internal/cluster/state.go:149-171 | Gives the slot to a known node in the table and in its bitmap and takes the bit from the previous owner, also after gossip; other slots and other nodes stay. |
| `ClusterState.State.UnassignSlot` | apps/api/internal/cluster/state.go:174-191 | Takes the slot from its owner in the table and in its bitmap; other slots stay. |
| `ClusterState.State.SetSlotState` | apps/api/internal/cluster/state.go:196-208 | Changes the migration state and peer of one slot, not its owner. |
| `ClusterState.State.AddNode` | apps/api/internal/cluster/state.go:103-121 | Registers a node, or updates the address of the one on record; table and bitmaps still agree exactly when the node was known or has no slots. |
| `ClusterState.State.ForgetNode` | apps/api/internal/cluster/state.go:125-145 | Drops a node other than this one, together with exactly its slots. |
| `ClusterState.State.Enable` | apps/api/internal/cluster/state.go:59-69 | Turns cluster mode on once; every owner still has its bits exactly when this node has the slots the table already gives to its id, and table and bitmaps still agree exactly when it has no others. |
| `ClusterState.EnableOverKnownId` | apps/api/internal/cluster/state.go:59-69 | Turning cluster mode on under an id that already owns a slot leaves the table naming a node without the bit. |
| `ClusterState.State.Reset` | apps/api/internal/cluster/state.go:324-342 | Only this node stays, without slots; table and bitmaps agree again whatever gossip had done. |
| `ClusterState.State.MergeGossip` | apps/api/internal/cluster/gossip.go:237-241 | Gossip keeps owners' bits in place; afterwards table and bitmaps agree exactly when the table gives the peer every slot it claimed. |
| `ClusterState.State.TableMatchesBitmaps` | apps/api/internal/cluster/state.go:59-208 | As long as they agree, the table names a node as a slot's owner exactly when its bitmap has the slot. |
| `ClusterState.State.OwnerIsUnique` | apps/api/internal/cluster/state.go:149-171 | As long as they agree, at most one known node has a slot's bit. |
| `ClusterState.State.Route` | apps/api/internal/cluster/redirect.go:57-106 | With cluster mode on and keys present: CROSSSLOT exactly when two keys differ in slot; OK only for a slot that the table and the bitmap give to this node; a foreign slot moves to its owner, who has the bit; CLUSTERDOWN only without an owner; our own slots follow their migration state. |
| `ClusterState.State.MovedNamesTheOwner` | apps/api/internal/cluster/redirect.go:76-83 | As long as table and bitmaps agree, the node a foreign slot is moved to is the only known node with the slot's bit. |
| `ClusterState.State.OwnSlotMovedIff` | apps/api/internal/cluster/redirect.go:84-105 | For a slot of our own the answer is MOVED exactly when it is being imported from a known node and the client did not announce itself. |
| `ClusterState.State.OwnSlotAskIff` | apps/api/internal/cluster/redirect.go:86-95 | It is ASK exactly when the slot is on its way to a known node. |
| `ClusterState.State.MovedAwayFromOwner` | apps/api/internal/cluster/redirect.go:96-104 | While table and bitmaps agree, that MOVED names a node without the slot unless the peer is this node itself. |
| `ClusterState.ImportingMovesToPeer` | apps/api/internal/cluster/redirect.go:96-104 | Two nodes and any key: this node owns and imports the slot, table and bitmaps agree, and the client is told that the slot moved to the peer, which does not have it. |
| `Crdt.JoinIsUpper` | apps/api/internal/aiops/crdt.go:331-383 | Merging loses nothing of either side, for all four kinds. |
| `Crdt.JoinIsLeast` | apps/api/internal/aiops/crdt.go:331-383 | Merging invents nothing: it is the least state that knows both sides. |
| `Crdt.JoinCommutative` | apps/api/internal/aiops/crdt.go:331-383 | The order of the two sides does not matter when equal stamps carry equal values. |
| `Crdt.RegistersCommuteIff` | apps/api/internal/aiops/crdt.go:374-379 | For registers the order does not matter exactly when equal stamps come with equal values. |
| `Crdt.JoinAssociative` | apps/api/internal/aiops/crdt.go:331-383 | Nor does the grouping of three. |
| `Crdt.JoinIdempotent` | apps/api/internal/aiops/crdt.go:331-383 | Merging a state into itself changes nothing. |
| `Crdt.LessTotal` | apps/api/internal/aiops/crdt.go:289-293 | The order on actor names that breaks ties is total. |
| `Crdt.LessMeans` | apps/api/internal/aiops/crdt.go:289-293 | It is the order of a dictionary: a name before its extensions, else by the first character that differs. |
| `Crdt.LaterIsKept` | apps/api/internal/aiops/crdt.go:374-379 | Of two registers the one with the later time is kept; with equal times, the one whose actor comes later. |
| `Crdt.LastWriterWins` | apps/api/internal/aiops/crdt.go:286-310 | Over any run, a register holds a write that has reached its key, there or through merges, or nothing yet; and no write that has reached it is later, by time and between equal times by the name of the actor. |
| `Crdt.LeqAntisymmetric` | apps/api/internal/aiops/crdt.go:331-383 | Two states that know each other are equivalent. |
| `Crdt.ReplicasConverge` | apps/api/internal/aiops/crdt.go:327-331 | Replicas that have taken in the same states, in any order and with any repeats, are equivalent. |
| `Crdt.EquivReadsAlike` | apps/api/internal/aiops/crdt.go:157-205 | Equivalent replicas answer every query alike. |
| `Crdt.MergedMembers` | apps/api/internal/aiops/crdt.go:363-373 | An element is in a merged set exactly when one side still has a tag for it: an add that a removal did not see survives. |
| `Crdt.SumTakes` | apps/api/internal/aiops/crdt.go:157-163 | The sum of the slots does not depend on the order in which the map yields them. |
| `Crdt.SlotAfter` | apps/api/internal/aiops/crdt.go:129-180 | What any operation does to any counter slot: an increment adds to its own, a merge takes the maximum, everything else leaves it. |
| `Crdt.TagsAfter` | apps/api/internal/aiops/crdt.go:207-251 | What any operation does to any tag of any member: an add gives its member a tag, a removal drops all tags of its member, a merge takes those of both sides, everything else leaves them. |
| `Crdt.OthersStay` | apps/api/internal/aiops/crdt.go:129-383 | No operation touches another key. |
| `Crdt.SlotsAreTrue` | apps/api/internal/aiops/crdt.go:129-180 | Over any run in which each actor increments through one key, no slot exceeds its actor's total and the owner's slot equals it. |
| `Crdt.CaughtUpIsExact` | apps/api/internal/aiops/crdt.go:331-362 | A key that has taken in, directly or through others, what the owner holds after its last increment holds the exact total. |
| `Crdt.NothingCountedTwice` | apps/api/internal/aiops/crdt.go:157-205 | No key ever shows more than has been added. |
| `Crdt.NothingLost` | apps/api/internal/aiops/crdt.go:157-205 | A key caught up with every actor shows the exact sum. |
| `Crdt.MergedCounterIsExact` | apps/api/internal/aiops/crdt.go:331-362 | Once increments have stopped, a key that merges in every owner reads the exact sum, however those merges are ordered, repeated and mixed with other operations. |
| `CrdtRegistry.Registry.GIncr` | apps/api/internal/aiops/crdt.go:129-141 | One step of a run; the answer is the counter's reading; a negative amount or another kind of key is refused and changes nothing. |
| `CrdtRegistry.Registry.PNIncr` | apps/api/internal/aiops/crdt.go:167-180 | Likewise, with negative amounts going to the falling slot. |
| `CrdtRegistry.Registry.SAdd` | apps/api/internal/aiops/crdt.go:210-227 | Adds a tag to the member, which then is present; the answer is the number of its tags. |
| `CrdtRegistry.Registry.SRem` | apps/api/internal/aiops/crdt.go:233-251 | Drops the member with all tags it has here; the answer is how many those were. |
| `CrdtRegistry.Registry.LWWSet` | apps/api/internal/aiops/crdt.go:294-310 | A later time is what is then read, an earlier one changes nothing, and an equal one is read exactly when its actor comes later; time zero means now. |
| `CrdtRegistry.Registry.Merge` | apps/api/internal/aiops/crdt.go:331-383 | One step of a run, also when both keys are the same and whatever order the maps come in; of two registers the later is kept; unknown keys and different kinds are refused. |
| `CrdtRegistry.Registry.MergePos` | apps/api/internal/aiops/crdt.go:347-351 | The in-place loop over the source's slots computes the slotwise maximum, also on the entry itself. |
| `CrdtRegistry.Registry.MergeTags` | apps/api/internal/aiops/crdt.go:364-373 | The in-place loop over the source's members computes the union of tags, also on the entry itself. |
| `CrdtRegistry.SumOf` | apps/api/internal/aiops/crdt.go:157-163 | Adding up the slots in any order gives the reading. |
| `Acl.RulesKeep` | apps/api/internal/acl/acl.go:283-287 | Every user any rule list leads to is regular: no password with nopass, no command both allowed and denied, names folded, no duplicates, no bare star among the patterns. |
| `Acl.HarmlessIff` | apps/api/internal/acl/acl.go:283-289 | A rule list changes no user at all exactly when every rule before its first malformed one is empty. |
| `Acl.RejectedYetApplied` | apps/api/internal/acl/acl.go:283-293 | A rejected rule list, off followed by a malformed rule, that leaves the user disabled. |
| `Acl.RuleTwice` | apps/api/internal/acl/acl.go:293-378 | Applying a rule twice is applying it once. |
| `AclMeaning.AllowsMeans` | apps/api/internal/acl/acl.go:384-433 | A command is allowed exactly to an enabled user who may run it, if every key and every channel passes. |
| `AclMeaning.FreshAndOpen` | apps/api/internal/acl/acl.go:269-282 | A new user can do nothing, the default user everything. |
| `AclMeaning.OnOff` | apps/api/internal/acl/acl.go:298-301 | "on" and "off" change nothing but whether the user is enabled. |
| `AclMeaning.PassWords` | apps/api/internal/acl/acl.go:302-307 | "nopass" lets everyone in, "resetpass" nobody; nothing else changes. |
| `AclMeaning.KeyWords` | apps/api/internal/acl/acl.go:308-310 | After "resetkeys" no key passes, after "allkeys" every key; nothing else changes. |
| `AclMeaning.ChannelWords` | apps/api/internal/acl/acl.go:311-313 | The same for channels. |
| `AclMeaning.ResetMeans` | apps/api/internal/acl/acl.go:314-326 | "reset" makes a new user of anyone. |
| `AclMeaning.AllCommandsMeans` | apps/api/internal/acl/acl.go:327-328 | "allcommands" and "+@all" let every command be run but those denied. |
| `AclMeaning.NoCommandsMeans` | apps/api/internal/acl/acl.go:329-332 | "nocommands" and "-@all" let none be run. |
| `AclMeaning.TildeMeans` | apps/api/internal/acl/acl.go:360-366 | "~" adds exactly the keys that match a pattern. |
| `AclMeaning.AmpersandMeans` | apps/api/internal/acl/acl.go:367-373 | "&" adds exactly the channels that match a pattern. |
| `AclMeaning.PlusMeans` | apps/api/internal/acl/acl.go:352-355 | "+" lets one command be run, in whatever case it is spelled, unless a category of it is denied. |
| `AclMeaning.MinusMeans` | apps/api/internal/acl/acl.go:356-359 | "-" denies one command. |
| `AclMeaning.PlusCategoryMeans` | apps/api/internal/acl/acl.go:347-348 | "+@" lets the commands of a category be run, except those denied by themselves or another category. |
| `AclMeaning.MinusCategoryMeans` | apps/api/internal/acl/acl.go:349-351 | "-@" denies the commands of a category. |
| `AclMeaning.AddingMeans` | apps/api/internal/acl/acl.go:337-344 | ">" adds a password and "#" a digest, and from then on one is needed. |
| `AclMeaning.RemovingMeans` | apps/api/internal/acl/acl.go:340-346 | "<" takes a password away and "!" a digest. |
| `AclMeaning.FormedMeans` | apps/api/internal/acl/acl.go:293-378 | Nothing else is a rule. |
| `Acl.LoadSaved` | apps/api/internal/acl/storage.go:113-157 | What loading a saved rule list makes of a user, whatever order the maps were walked in. |
| `Acl.ReloadKeepsDecisions` | apps/api/internal/acl/storage.go:111-157 | For every regular non-default user, every decision survives saving and loading exactly when the user is disabled or no category set holds "all" with an effect (a condition on the user's fields and the command table). |
| `Acl.UnsafeShows` | apps/api/internal/acl/storage.go:130-135 | Where that condition fails there is a command decided differently after reloading. |
| `Acl.LowerCaseRulesReload` | apps/api/internal/acl/storage.go:111-157 | So for every user made by rules that spell category names in lower case every decision survives, also when a category is both allowed and denied. |
| `Acl.LowerCaseNamesAvoidAll` | apps/api/internal/acl/acl.go:347-351 | Rules in lower case never put "all" into a category set. |
| `Acl.ReloadKeepsLogin` | apps/api/internal/acl/storage.go:120-126 | The same passwords, or none, open a reloaded non-default user. |
| `Acl.CapitalsAreUnsafe` | apps/api/internal/acl/acl.go:347-351 | Rule lists that reach a user who is not safe to save: one category rule in capitals gains every command by a reload, another loses every one. |
| `Acl.DefaultKeepsLogin` | apps/api/internal/acl/storage.go:111-126 | The default user lets in the same passwords after a restart exactly when it is disabled, needed none, or had one to save. |
| `Acl.DefaultKeepsDecisions` | apps/api/internal/acl/storage.go:111-157 | Every decision about the default user survives a restart exactly when it is disabled, or already had all commands, keys and channels in effect; with a denied category "all", the commands allowed one by one must be all it had, and unlimited if there are any. |
| `Acl.DefaultForgets` | apps/api/internal/acl/storage.go:17-18 | Two rules that a restart undoes: after resetpass the default user lets anyone in again, after nocommands it runs commands again. |
| `Acl.SaveAndLoadIsNoOp` | apps/api/internal/acl/storage.go:111-157 | For every non-default user made by rules without blanks that spell category names in lower case, reading back the line written for it makes a user with the same decisions and the same passwords. |
| `Acl.LineRoundTrip` | apps/api/internal/acl/storage.go:36-49 | A line written for a user whose name and rules hold no blanks is read back as that name and those rules. |
| `Acl.LineReads` | apps/api/internal/acl/storage.go:36-49 | With blanks, what is read is the words of the name and of every rule in turn: the first is taken for the name, each further one for a rule. |
| `Acl.SavedRulesAreWordsIff` | apps/api/internal/acl/storage.go:113-157 | A user is saved as rules without blanks exactly when no password, pattern, command or category that is written holds one. |
| `AclFile.SetUserKeepsRegular` | apps/api/internal/acl/acl.go:269-289 | From the registry a restart begins with, any rule lists for any users lead to regular users only. |
| `AclFile.SavedIsFormed` | apps/api/internal/acl/storage.go:113-157 | No rule that is saved is malformed, so that reading back never stops early. |
| `AclFile.RestartGives` | apps/api/internal/acl/storage.go:19-109 | Any registry saved and read into a new one: every user becomes what the entries read about him make of a new user or of the default one, and if nothing that was written holds a blank, loading succeeds and they are all users, each as its saved rules make it. |
| `AclFile.RestartIsNoOpIff` | apps/api/internal/acl/storage.go:19-109 | After saving all users and loading the file, loading has succeeded and there are the same users, who decide every command and admit every password as before, exactly when every name is a word and every user returns: without blanks that is when an enabled one is safe to save, the default user by its own condition; with blanks, when the words read instead are rules that make the same of it. |
| `AclFile.LoadGives` | apps/api/internal/acl/storage.go:36-56 | For any file whatever, loading does to each user what the lines up to the first malformed one say about him, taken together, makes those it names, and succeeds exactly when there is no malformed one. |
| `AclFile.FileSaysIff` | apps/api/internal/acl/storage.go:36-93 | The entries read from a saved file are those that were written exactly when no name and nothing else that was written holds a blank. |
| `AclFile.BlankLosesUsers` | apps/api/internal/acl/storage.go:36-47 | A user given a pattern with a blank: loading stops at its line, and no user of any later line comes back. |
| `AclManager.User.ApplyRule` | apps/api/internal/acl/acl.go:293-378 | Applies one rule in place as specified; a malformed one is reported and changes nothing. |
| `AclManager.User.Allowed` | apps/api/internal/acl/acl.go:384-433 | Denials come before grants, for commands and for categories; every key and channel must match a pattern unless all are granted; nothing is allowed to a disabled user. |
| `AclManager.User.Authenticated` | apps/api/internal/acl/acl.go:156-173 | Accepts exactly an enabled user with nopass or a password whose digest is listed. |
| `AclManager.User.SerializeRules` | apps/api/internal/acl/storage.go:113-157 | The list written is a saved form of the user, the map loops running in any order. |
| `AclManager.Manager.SetUser` | apps/api/internal/acl/acl.go:269-289 | Makes the user if absent, also when the rules are rejected, and applies the rules up to the first malformed one, which are not undone; other users stay. |
| `AclManager.Manager.Authenticate` | apps/api/internal/acl/acl.go:145-174 | Finds the user without regard to case, the default one for an empty name, and accepts or rejects the password. |
| `AclManager.Manager.Save` | apps/api/internal/acl/storage.go:64-109 | Writes one line for each user, a saved form of it under its name. |
| `AclManager.Manager.Load` | apps/api/internal/acl/storage.go:19-60 | Reads line by line, ignoring what is no user line, up to the first line with a malformed rule, whose earlier rules stay applied. |
| `AclManager.ReadString` | apps/api/internal/acl/storage.go:34-56 | The file is cut at its line feeds, and what follows the last one is a line as well. |
| `AclManager.Restart` | apps/api/internal/acl/storage.go:19-109 | A new registry that loads what the old one saved holds every user as the entries read make it: without blanks, as its saved rules do. |
| `AclManager.Append` | apps/api/internal/acl/acl.go:531-538 | Appends a string unless it is there. |
| `AclManager.Remove` | apps/api/internal/acl/acl.go:540-548 | Removes every occurrence of a string and keeps the order of the rest. |
| `AclManager.MatchesAny` | apps/api/internal/acl/acl.go:516-523 | Some pattern matches, as the glob relation has it. |

## Left out

* Sockets, the async runtime, TLS, HTTP handlers, dashboard, SDK, CLI, logging and metrics: no property of their own.
* `UpstreamConn.forward` (`apps/rust-hotpath/src/proxy.rs:143-156`), which nothing calls, and failures of the client's own connection. The upstream answers every request it receives with one well-formed reply.
* What local commands do: a reply is any function of the commands before it. TTLs and stream ids are not modelled.
* Streams are shorter than 2^63 bytes.
* The reply scanner's recursion depth and all allocation limits: memory is unbounded.
* The hub's `Wait` timeouts: a waiter may cancel at any time instead. Channels hold one token, as in the code.
* The maps from names to queues and breakers: one queue and one breaker are modelled. Job payloads and time stamps other than the deadline are left out, and ids are unbounded.
* `container/heap` is Go's own library and not part of the repository; its sift loops are modelled as the library documents them.
* `Neighbors`, `Subjects` and the statistics of the graph; usage listings of budgets; snapshots and totals of breakers: readers without a harder property.
* Floating point: amounts, ratios and thresholds are real numbers. Durations and times are integers.
* Carbon, risk, rate and market gates: their subsystems are not part of this model. They answer peeks arbitrarily and record what is taken.
* Integer width of counters, epochs and sequence numbers: unbounded.
* Tags of observed-remove sets are triples instead of text, and a tag minted twice is not excluded. No claim is made that a removed tag stays removed: a merge from a replica that still has it brings it back.
* Locks of the cluster state: each operation is one atomic step, as is routing. Node flags, ping times and epochs other than the reset are left out, as are the gossip transport and failure detection.
* Node bitmaps are fixed-size values inside the node, as in the code, so that no two nodes share one.
* Access control: the audit log, deletion of users, the required-password shortcut and the fast path for unrestricted users. Case folding is for ASCII. The digest is any function to lower-case text. White space is that of ASCII. The file is modelled as its bytes, with lines in any order (the code sorts them by name), without input and output.
- Quota.Engine.Evaluate: between its phases others may charge budgets, but not set or reset them.
- Pipeline.Connection.Handle: which forwarded request a reply answers is stated for a network that never fails; after a failure OwnAnswersIff says when a batch gets its own, and RefusalShiftsReplies and CutReplyRunsOn show that it need not.
- AclFile.RestartIsNoOpIff: is for registries whose saved lines hold no line feed; with one, RestartGives and FileSaysIff still hold.
- Acl.ReloadKeepsDecisions: is for non-default users; DefaultKeepsDecisions is the same result for the default one.
- Pipeline.Connection.LateRepliesAreLost: leaves open a last reply of 64 KiB or more, which may be sent whole at once; whether it is depends on how the reply is cut into writes.
- WaitHub.NoLostWakeup: does not promise that a token a notify did deliver is used; TokenNeverWastedIff and TokenWaits say exactly when it is not.
