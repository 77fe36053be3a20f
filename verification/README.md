# Verified model of the SMTP server

This project models a non-blocking SMTP server written in C, and proves what its parts promise to each other and to the
client: the event loop of a connection, the mail dialogue, the parsers, the selector, the mail registry, the monitor's
wire format and the log queue. `dafny verify dfyconfig.toml` checks all of it.

## How it is built

Code that changes state in place is a class whose methods are proved against functions on values; the laws are lemmas
about these functions.

| part | source | values and functions | objects |
|---|---|---|---|
| byte buffers | src/lib/buffer.c | `Buffers.Queue`, `Buffers.Apply` | `Buffers.Buffer` |
| request parsers | src/lib/request.c, src/lib/request_data.c | `LineSyntax`, `BodySyntax` | `RequestParsers.RequestParser` |
| mail dialogue | src/lib/process.c | `Dialogue` | `SmtpSessions.SmtpSession` |
| connections | src/lib/smtp.c | `Connections`, `ReferenceServer`, `MailTransfer` | `ConnectionObjects.Connection` |
| mail files | src/lib/maildir.c | `Spools` | |
| state machine engine | src/lib/stm.c | `Stm.ReactAll`, `Stm.Bracketed` | `Stm.StateMachine` |
| selector | src/lib/selector.c | `Selectors.Perform`, `Selectors.Pass` | `Selectors.Selector` |
| mail registry | src/lib/access_registry.c | `Registry.InRange`, `Registry.SentBy` | `Registry.MailRegistry`, filled by `RegisteredMails` |
| string automata | src/lib/parser.c, src/lib/parser_utils.c | `Parsers.Verdict` | `Parsers.Parser` |
| monitor | src/lib/monitor.c, monitor_client/client_monitor.c | `Monitor.Classify`, `Monitor.RequestImage` | `Monitor.Counters` |
| log queue | src/lib/logger.c | `Logger.Texts` | `Logger.Log` |

A connection is a transition system on the value `Connections.Conn`. Its events are what select reports, with the
results of the system calls made while handling it: how many bytes `send` took, which bytes `recv` brought, whether
`write` succeeded, and which descriptor a spool file gets. What the rest of the process answers to a request (is this a
user, is this a date, which listing) is an environment that names the answers to the k-th processed request. The
history fields of `Conn` (bytes received and sent, tokens parsed, requests processed, mails registered) exist only to
state theorems about whole runs; `spool` is what the connection's files hold. `ConnectionObjects.Connection` is the same
program written with buffers, parser objects and interests that change in place; `Serve` shows that over every run at
all it walks through exactly the states of the transition system, so that every theorem about runs is about this
program.

`ReferenceServer` is the simple form of the server: it reads its input byte by byte, has no buffers, no interests and
no partial sends. `RunsSimulate` shows that every run of the event loop does what it does, down to the files that it
leaves.

Bytes on the SMTP side are Dafny characters, and a C string is the text before the first NUL. Counters wrap at the width
the C program gives them.

## What turned out to be false, and the exact conditions

- A send that takes only part of a reply returns a `ret` that was never assigned (src/lib/smtp.c:357-383). The value is
  an input of the event, and all values are followed to where they lead. `PartialSendIsFragile`: the invariant survives
  exactly when the value is REQUEST_WRITE, REQUEST_DONE or REQUEST_ERROR, or REQUEST_READ while a complete request
  lies in the read buffer and its reply fits behind the unsent bytes. `HarmfulSend` says what happens otherwise.
- A failed write to the spool file leaves the machine in REQUEST_ERROR with OP_WRITE still set. `RunsAreSafe`: when no
  incomplete send is harmful, the engine's `abort()` is reached exactly by the next event after such a failure.
  `InvHoldsThroughout` covers every run: the invariant holds after each event exactly when each event was benign.
- A body whose first bytes are LF "." CR makes the body parser store outside its array, because an unsigned index wraps
  around (src/lib/request_data.c:106). `FaultsExactlyOnInitialDotLine` and `RunsAreSafe` give the exact inputs.
- A body parser starts afresh for each fill, and so does the file it is written to. `TerminatorMustArriveWhole`: of a
  frame cut into any number of fills, no fill but the last ends the body, and the last does exactly when it holds the
  whole terminator. `FillsKeepTheBody`: the file holds all fills exactly when at most one has any text, because each is
  written over the one before.
- The name of a connection's temporary file is chosen once (src/lib/maildir.c:92-101), and files are not truncated.
  `MailArrives`: a mail arrives exactly when its first recipient has the mailbox of the connection's first mail and no
  file was longer before; `MailsArrive` states this over every run. `SecondMailIsTheFirst`: when the first recipients
  have different mailboxes, the recipients of the second mail get the first one.
- A complete reply does not always lead on to the bytes that are already there (src/lib/smtp.c:196). `WaitingBytes`: they
  wait for further ones only in REQUEST_ADMIN, and in REQUEST_DATA directly after a fill that failed;
  `PipelinedAdminWaits` shows requests behind a password that do.
- RSET keeps the accepted recipients, against section 4.1.1.5 of RFC 5321. `RsetKeepsRecipients`: from every state of
  the dialogue outside a body, the message after a RSET goes to its own recipient alone exactly when none was waiting.
- `selector_register` guards the growth of its table with `>` where `>=` is needed (src/lib/selector.c:363).
  `RegisterStaysInTable`: the slot lies in the table exactly when the descriptor differs from the table's size;
  `InitialSizesWithoutGap`: this cannot happen exactly when the selector was made for 512 elements or more.
- The write callback of a slot gets the attachment from before the read callback (src/lib/selector.c:474-495).
  `WriteAttachment`: it is not the present one exactly when the read callback ran, unregistered the descriptor, and
  the first registration after the last such call brought another attachment.
- A reply does not always fit its array. `ReplyFits`: it does exactly when the listing does that an XGET with ALL or a
  date asks for, and the unset array does that an XTRAN without ON or OFF shows.
- A monitor client and a server of different byte orders do not understand each other: `MixedHostsDisagree`.
- The client always shows STATUS as on: it tests a byte in which the server stores the number of the command
  (`Monitor.Ask`).
- A log that finds no free byte loses the last byte that was waiting; `Log.LogF` says exactly when that happens.

## Model

| member | source | states |
|---|---|---|
| Connections.RunsAreSafe | src/lib/stm.c:57-81 | over every run in which each incomplete send finds a harmless value in the unassigned `ret`: the engine aborts exactly when something happens after a failed write to the spool file; the parser's array is left exactly by a body fill that opens with LF "." CR; every other run ends in the invariant |
| Connections.StepKeepsInv | src/lib/smtp.c:302-452 | an enabled event keeps the invariant that links dialogue, socket state, both interests, parser and buffers if and only if it is no failed write to the spool file, no harmful incomplete send and no underflowing fill |
| Connections.InvHoldsThroughout | src/lib/stm.c:57-81 | over every run at all, the invariant holds after each event if and only if each event was benign where it came |
| Connections.RunsAreSane | src/lib/smtp.c:302-452 | in every run at all, each event finds the parser, the handler and the state that its callback uses |
| Connections.InterestsMatchStates | src/lib/smtp.c:111-146 | after every run without a failed write, an underflowing fill or a harmful incomplete send: read interest implies a reading state and an empty write buffer, write interest on the client REQUEST_WRITE, write interest on a file REQUEST_DATA_WRITE on that file; the data states occur exactly in BODY and REQUEST_ADMIN exactly in XFROM and XGET; a closed connection has no interest left |
| Connections.PartialSendIsFragile | src/lib/smtp.c:357-383 | an incomplete send keeps the invariant if and only if the unassigned result names REQUEST_WRITE or an end state, or REQUEST_READ while the next request is complete and its reply has room; every other value is followed through the jump and the rest of write_handler |
| Connections.HarmfulSend | src/lib/smtp.c:188-202 | where each other value leads: an abort at once or by any next event, a reply outside its array, or the callback of the spool file while a reply is half sent |
| Connections.HarmIsReachable | src/lib/smtp.c:357-383 | the first event of a connection can be such a send |
| Connections.WaitingBytes | src/lib/smtp.c:188-202 | over every regular run, received bytes wait for further ones never in REQUEST_READ, only in REQUEST_ADMIN or in REQUEST_DATA directly after a fill that failed |
| Connections.ClosedExactly | src/lib/smtp.c:178-243 | over every regular run, the connection is closed if and only if its last event was the end of the client's bytes with nothing left to parse, a failed send or an incomplete one that found an end state, or the last request was a QUIT; and then no interest is left |
| Connections.StepEnds | src/lib/smtp.c:178-243 | the same for one event in any state that satisfies the invariant |
| Connections.EndOfInputCloses | src/lib/smtp.c:433-453 | an end of input that finds the read buffer empty closes the connection, and no request is processed |
| Connections.ReadingGetsOn | src/lib/smtp.c:396-453 | a readable event parses at least one byte, and all bytes unless it hears a request or ends a fill |
| Connections.RoomExactly | src/lib/smtp.c:302-339 | a reply has room if and only if it and its NUL fit 1024 characters and it fits behind the pending bytes in 4096 |
| Connections.StuckAborts | src/lib/smtp.c:626-628 | after a failed write to the spool file every further event aborts |
| MailTransfer.AbortIsReachable | src/lib/smtp.c:626-628 | from every connection whose body is awaited there are events, harmless sends all, after which the engine has aborted |
| MailTransfer.PipelinedAdminWaits | src/lib/smtp.c:188-202 | whatever follows the password in one packet lies unread in REQUEST_ADMIN when the reply has been sent |
| MailTransfer.BareXquitLeaves | src/lib/smtp.c:433-453 | a bare XQUIT read in REQUEST_ADMIN is one request, is answered, and leads back to FROM |
| Connections.RegularSteps | src/lib/stm.c:57-81 | each event of a regular run finds the invariant, is enabled, and leads to the next state of the run |
| ReferenceServer.RunsSimulate | src/lib/smtp.c:302-667 | over every regular run whose early reads happen where commands are expected, whatever the fragmentation and the partial sends: received bytes are the parsed ones and the buffered ones; requests and fills are the lexing of the parsed bytes by a server without buffers; sent and pending bytes are the greeting and one reply for each request; session and deliveries are those of the dialogue; the files are those of the fills, with one more header while a body is read |
| ReferenceServer.FragmentationDoesNotMatter | src/lib/smtp.c:433-453 | two connections that parsed the same bytes outside bodies have the same requests, session and deliveries and owe the client the same bytes, however the bytes were cut and the sends interrupted |
| ReferenceServer.RegistersWhatWasReplied | src/lib/smtp.c:616-667 | on every connection, open or ended, there is one reply for each processed request but a final QUIT, in order, and exactly the mails that the replies promised are registered |
| ReferenceServer.RepliesCount | src/lib/smtp.c:634-657 | on every connection, open or ended, registered mails and waiting recipients add up to the RCPTs answered 250 |
| ReferenceServer.MailsArrive | src/lib/smtp.c:540-667 | over every such run whose last fill was the whole of a body: the registered mails are those of the completed bodies, and a recipient's file holds exactly header and body if and only if the first recipient has the mailbox of the first mail and no file was longer |
| MailTransfer.MailIsDelivered | src/lib/smtp.c:178-667 | on every connection between two mails, for every local sender, every list of local recipients and every body that can be framed in one fill, a conversation exists after which exactly that mail is registered for each recipient in order, and its header lines and its body are written to the temporary file and copied |
| MailTransfer.FirstMailArrives | src/lib/smtp.c:540-667 | after the first mail of a connection the file of every user that a recipient names holds exactly the header lines and the body, and no other user has a file |
| MailTransfer.SecondMailIsTheFirst | src/lib/maildir.c:92-101 | a second mail is always registered; a recipient's file holds its header and body if and only if the first recipients of both mails have the same mailbox and the second mail is not shorter; with different mailboxes it holds the first mail |
| Spools.FillContent | src/lib/smtp.c:587-594 | the header lines and the text of a fill are one write at the start of the mailbox's temporary file |
| Spools.FillsKeepTheBody | src/lib/smtp.c:540-599 | any number of fills of a new file leave header and all texts there if and only if at most one text is not empty |
| Spools.CopiedInbox | src/lib/maildir.c:109-181 | the copies go to exactly the mailboxes of the recipients, over what was there, whatever their order and repetition |
| Spools.MailboxOfUser | src/lib/maildir.c:82-107 | the mailbox of a user's name, alone or with any domain, is that name |
| Spools.LeadingAtsAreSkipped | src/lib/maildir.c:82-107 | leading '@' characters do not matter, and an empty address has the mailbox of a null pointer |
| Spools.SameMailbox | src/lib/maildir.c:82-107 | two addresses that do not begin with '@' share a mailbox if and only if their texts in front of the first '@' are equal |
| Spools.CopiedToUsers | src/lib/maildir.c:109-181 | the copies reach exactly the users that the recipients name, with any domain or none, and no other user's file changes |
| Spools.MailArrives | src/lib/maildir.c:82-181 | over all files that a connection can leave, a mail arrives as header and body if and only if its first recipient has the mailbox of the first mail and neither the temporary file nor the recipient's file was longer |
| Spools.LaterMailIsLost | src/lib/maildir.c:92-101 | the recipients of any other later mail get the temporary file of the first mail's mailbox, whatever was sent, and so not that mail |
| Spools.HeadersTell | src/lib/smtp.c:587-594 | files that begin with the header lines of two messages and are equal have the same sender and the same first recipient |
| ConnectionObjects.Connection.constructor | src/lib/smtp.c:244-298 | an accepted connection waits to send the greeting, before its first state |
| ConnectionObjects.Connection.ReadHandler | src/lib/smtp.c:178-186 | parsing left-over bytes first, or receiving new ones, takes the object to the step's state, an abort included |
| ConnectionObjects.Connection.RequestActualRead | src/lib/smtp.c:396-431 | one call of the consumer of the state, and the interests and the request that follow from it; a store outside the array ends as such |
| ConnectionObjects.Connection.RequestProcess | src/lib/smtp.c:302-339 | the handler's reply follows the pending bytes when it has room and is a store outside the array otherwise; the copy of request.data fits; QUIT leads to the end without a reply |
| ConnectionObjects.Connection.RequestWriteHandler | src/lib/smtp.c:342-384 | the sent prefix leaves the buffer; what is returned and which interest is set after an error, an incomplete and a complete send |
| ConnectionObjects.Connection.WriteHandler | src/lib/smtp.c:188-202 | sending, jumping to whatever was returned, and going on with bytes that are already there takes the object to the step's state, for every value of the unassigned result |
| ConnectionObjects.Connection.JumpTo | src/lib/stm.c:39-55 | arriving in a state starts its parser, and its spool file with the header lines, and a jump to the present state does nothing |
| ConnectionObjects.Connection.DataInit | src/lib/smtp.c:540-599 | the body parser starts, the file is registered without interest, and sender, recipients and DATA are written to it |
| ConnectionObjects.Connection.WriteFile | src/lib/smtp.c:210-215 | the event of the spool file in every state: abort, an error that is not looked at, or the fill |
| ConnectionObjects.Connection.Spool | src/lib/smtp.c:616-667 | the fill's text goes to the spool file; a complete body is delivered, otherwise the next fill is awaited |
| ConnectionObjects.Connection.Deliver | src/lib/smtp.c:634-657 | one copy and one registration for each recipient in order, the request and the transaction are cleared, the descriptor of the spool file is gone, and the reply waits; an unregistered file ends it with an error |
| ConnectionObjects.Connection.CleanRequest | src/lib/smtp.c:691-702 | sender, recipients and all texts of the request are cleared, and the parser keeps its state |
| ConnectionObjects.Connection.Serve | src/lib/smtp.c:178-215 | over every list of enabled events, harmful ones included, the callbacks lead the object from the accepted state to exactly the state of the run |
| RegisteredMails.Register | src/lib/smtp.c:634-640 | the calls of register_mail append exactly these deliveries to the registration order, with their times, and count them |
| RegisteredMails.RegisterRun | src/lib/smtp.c:634-657 | the registry after a connection, open or ended, lists exactly the mails that its replies promised, and its counter is the number of RCPTs answered 250 less the recipients still waiting |
| ConnectionObjects.TableMatches | src/lib/smtp.c:111-146 | the table of states passes the engine's check, has a reading and a writing callback exactly where the steps need them, and states without an arrival callback are entered without effect |
| Dialogue.ReachableSessionsAreGood | src/lib/process.c:36-388 | every reachable dialogue state has a handler; DATA and BODY imply a recipient; sender and recipients are local addresses |
| Dialogue.MessagesHaveASender | src/lib/process.c:122-257 | in TO, DATA and BODY the sender is that of a MAIL answered 250 since the last message, and the recipients, of which DATA and BODY have some, are those of the RCPTs answered 250 |
| Dialogue.PrivilegeNeedsPassword | src/lib/process.c:259-342 | whoever stands in XFROM or XGET gave the right password in FROM, has been privileged since, and has not sent XQUIT, RSET or QUIT |
| Dialogue.PrivilegeExactly | src/lib/process.c:84-97 | a dialogue is privileged if and only if the password was received in FROM and neither XQUIT nor RSET nor QUIT followed |
| Dialogue.XquitGivesUp | src/lib/process.c:84-97 | from every privileged dialogue XQUIT leads to FROM, is answered, and changes nothing else |
| Dialogue.StateMoves | src/lib/process.c:36-388 | which state follows, for every command in every reachable state outside a body, with the password and the prefixes as the program has them |
| Dialogue.UserMoves | src/lib/process.c:283-388 | the user looked at changes only by an XFROM that names a known user and by a listing |
| Dialogue.Refusals | src/lib/process.c:473-488 | where the two refusals are told apart: a known verb that the state does not expect is out of sequence, and exactly the unknown verbs are not recognised |
| Dialogue.FlatRefusals | src/lib/process.c:99-257 | in EHLO and DATA everything that does not move the dialogue or add a recipient is not recognised |
| Dialogue.ExpectedReplies | src/lib/process.c:36-388 | what each expected command is answered with, by its argument and the answers of the rest of the process |
| Dialogue.ReplyCodes | src/lib/process.c:390-471 | the code that each reply begins with |
| Dialogue.DeliversWhatWasAnswered | src/lib/smtp.c:634-657 | for every dialogue, finished or not, sender, recipients and deliveries can be read off the transcript of requests and replies: one delivery for each RCPT answered 250 since the last message, in order, and deliveries and waiting recipients add up to the RCPTs answered 250; only a final QUIT has no reply |
| Dialogue.TurnByReply | src/lib/process.c:122-216 | a request changes sender or recipients if and only if it is a MAIL or RCPT answered 250 2.1.0, and then by the address in its brackets |
| Dialogue.AcceptanceIsVisible | src/lib/process.c:434-450 | the text of a reply to MAIL or RCPT is that of acceptance only when the address was accepted |
| Dialogue.RsetKeepsRecipients | src/lib/process.c:36-53 | after every dialogue outside a body, the message that follows a RSET goes to the recipients waiting before it and to its own, so to its own alone if and only if none was waiting |
| Dialogue.ReplyFits | src/lib/process.c:390-471 | a reply is shorter than the response array if and only if, in the states and for the commands that show one, the listing and the unset array are, for all arguments that the parsers can deliver |
| Dialogue.ParsesBracketed | src/lib/process.c:490-504 | extract_email undoes the bracketing: the address written in brackets behind the prefix is the address found, for all short local addresses |
| Dialogue.ParsesExactly | src/lib/process.c:122-216 | the prefix in any case and a bracketed text of less than 255 characters give that text, as local or as foreign |
| Dialogue.MalformedExactly | src/lib/process.c:122-216 | every other argument, and none of these, is malformed |
| Dialogue.LocalDomains | src/lib/process.c:145-158 | an address is local if and only if it has no domain or the domain is "local" |
| SmtpSessions.VerbsAreDistinct | src/lib/process.c:36-97 | testing the verbs one after another is a classification: each command is recognised exactly by its own verb, ignoring case |
| SmtpSessions.KnownVerbs | src/lib/process.c:473-488 | apart from NOOP, QUIT and RSET, the verbs of the table of valid commands are exactly those with a meaning |
| SmtpSessions.SmtpSession.IsValid | src/lib/process.c:473-488 | true exactly for the expected verb ignoring case; otherwise the reply tells a known verb out of sequence from an unknown one |
| SmtpSessions.SmtpSession.HandleHelo | src/lib/process.c:99-120 | refines the dialogue in EHLO |
| SmtpSessions.SmtpSession.HandleFrom | src/lib/process.c:122-171 | refines the dialogue in FROM, with the authentication that also starts there |
| SmtpSessions.SmtpSession.HandleTo | src/lib/process.c:173-216 | refines the dialogue in TO |
| SmtpSessions.SmtpSession.HandleBody | src/lib/process.c:218-232 | refines the end of a body, and copies the request's text, for which there has to be room |
| SmtpSessions.SmtpSession.HandleData | src/lib/process.c:234-257 | refines the dialogue in DATA, where further recipients are taken |
| SmtpSessions.SmtpSession.HandleXAuth | src/lib/process.c:259-282 | refines the password check; its `true` is the state FROM |
| SmtpSessions.SmtpSession.HandleXFrom | src/lib/process.c:283-316 | refines the dialogue in XFROM |
| SmtpSessions.SmtpSession.HandleXTran | src/lib/process.c:317-342 | refines the switch of the transformation; an unknown argument replies with whatever the array held |
| SmtpSessions.SmtpSession.HandleXGet | src/lib/process.c:344-388 | refines the dialogue in XGET |
| SmtpSessions.SmtpSession.Process | src/lib/smtp.c:302-339 | the chain of handlers computes the dialogue's turn: next session, reply, and whether the connection ends |
| LineSyntax.CompletesExactlyOnLines | src/lib/request.c:43-134 | the automaton completes on a text with a verb and an argument if and only if the text is that command line, a definition that does not mention the automaton |
| LineSyntax.BareVerbs | src/lib/request.c:76-108 | a verb that CR LF follows at once completes if and only if its first four characters are DATA, RSET, QUIT or NOOP ignoring case, or its first five XQUIT in the administrative parser; exactly these bytes are consumed then, whatever follows |
| LineSyntax.LongestLine | src/lib/request.c:76-134 | verb and argument complete if and only if they have at most 15 and 255 characters |
| LineSyntax.FailsExactlyWhenHopeless | src/lib/request.c:43-134 | the parser has failed if and only if no further bytes could complete the line |
| LineSyntax.ConsumesWholeLine | src/lib/request.c:26-39 | a line is consumed exactly to its LF, and pipelined bytes stay unread |
| LineSyntax.ConsumeIsFirstDone | src/lib/request.c:26-39 | consuming never goes past the first byte at which the parser is done |
| LineSyntax.RequestsSplit | src/lib/request.c:26-39 | consuming x and then y finds the same requests and leaves the same parser as consuming x followed by y |
| LineSyntax.LinesThenParse | src/lib/request.c:26-134 | any list of lines, with an argument or bare, is parsed as exactly these commands, with a fresh parser at the end |
| LineSyntax.PrintThenParse | src/lib/request.c:26-134 | printing any list of well-formed commands (section 4.1.1 of RFC 5321) and parsing the text gives back the list, with a fresh parser at the end |
| RequestParsers.RequestParser.FeedLine | src/lib/request.c:43-134 | the arrays, the index and the state represent the automaton's state after the byte |
| RequestParsers.RequestParser.ConsumeLine | src/lib/request.c:26-39 | exactly the bytes up to the end of the request leave the buffer, and the parser has taken exactly these |
| RequestParsers.RequestParser.FeedBody | src/lib/request_data.c:40-130 | the array, the index and the state represent the body parser's state after the byte, for every byte |
| RequestParsers.RequestParser.ConsumeBody | src/lib/request_data.c:24-38 | exactly one fill leaves the buffer, and the parser has taken exactly it |
| RequestParsers.DrainRequests | src/lib/request.c:26-39 | draining a buffer with a fresh parser after each request yields the requests of its bytes as C strings |
| RequestParsers.ServeFragments | src/lib/request.c:26-39 | bytes that arrive in any fragmentation yield the requests of the whole stream |
| RequestParsers.PrintedTexts | src/lib/request.c:26-134 | commands without NUL bytes come back unchanged as the C strings that handlers see |
| BodySyntax.FramingRoundTrip | src/lib/request_data.c:24-130 | framing a body (section 4.1.1.4 of RFC 5321) and parsing it ends at the final LF with exactly the body stored, if and only if the body is short enough, NUL-free and free of dot lines |
| BodySyntax.ConsumeSplit | src/lib/request_data.c:24-38 | one parser's consumption does not depend on where the bytes are cut |
| BodySyntax.PiecewiseRoundTrip | src/lib/request_data.c:24-130 | a framed body and what follows it, cut into any pieces for one parser, end with exactly the body stored and exactly the rest unread, if and only if the body is short enough, NUL-free and free of dot lines |
| BodySyntax.FaultsExactlyOnInitialDotLine | src/lib/request_data.c:98-130 | the store outside the array happens for exactly one input, LF "." CR |
| BodySyntax.FullArrayDrops | src/lib/request_data.c:98-130 | a full array drops every byte but CR |
| BodySyntax.TerminatorMustArriveWhole | src/lib/smtp.c:540-599 | of a framed body of any length, cut into any number of fills, only the last fill can end the body, and does if and only if it holds the whole terminator; then the texts of all fills join to the body |
| Buffers.FirstInFirstOut | src/lib/buffer.c:14-116 | over every run of operations, what left the queue and what is pending is what was pending and what was stored, in order; an empty queue offers its whole capacity |
| Buffers.Buffer.Run | src/lib/buffer.c:14-116 | pointers and bytes refine the queue over every run of operations, including what each operation hands out |
| Buffers.OperationsDoTheirWork | src/lib/buffer.c:14-116 | what each operation takes in and hands out, and the space it leaves, in numbers of the capacity |
| Buffers.Buffer.Compact | src/lib/buffer.c:102-116 | the overlapping move keeps the pending bytes and puts them at the start |
| Buffers.Buffer.ReadAdv | src/lib/buffer.c:66-78 | the read bytes leave the front, an emptied buffer returns to the start, an error code changes nothing |
| Buffers.Buffer.WriteAdv | src/lib/buffer.c:57-64 | the bytes stored at the write pointer join the pending ones |
| Buffers.Buffer.Read | src/lib/buffer.c:80-91 | the oldest byte, or NUL from an empty buffer |
| Buffers.Buffer.Write | src/lib/buffer.c:93-100 | the byte joins the pending ones if and only if there is room |
| Stm.StateMachine.Init | src/lib/stm.c:12-26 | succeeds exactly for a table indexed by its ids with an initial state below the last |
| Stm.StateMachine.HandleFirst | src/lib/stm.c:28-37 | the first event arrives in the initial state, and no later one |
| Stm.StateMachine.Jump | src/lib/stm.c:39-55 | departure and arrival for a change, nothing for a jump to itself, refusal outside the table |
| Stm.StateMachine.Handle | src/lib/stm.c:57-81 | which callbacks run, in which order, and when the engine aborts |
| Stm.StateMachine.Close | src/lib/stm.c:96-102 | closing departs from the open state, after which nothing is open |
| Stm.StateMachine.Run | src/lib/stm.c:12-102 | over every run ended by close the callbacks are bracketed: arrivals and departures alternate, every callback runs in the state last arrived at, and no state is left for itself; the calls made are those of the events up to an abort |
| Stm.EventsRunTheirCallbacks | src/lib/stm.c:57-81 | over every list of events, the engine aborts if and only if some event finds a state without its callback or returns no state; until then each event runs its own kind of callback in the state that the one before returned, and no callback runs that the table does not have |
| Selectors.NextCapacity | src/lib/selector.c:178-195 | the loop computes the capacity, which exceeds the argument |
| Selectors.CapacityIsLeast | src/lib/selector.c:178-195 | the capacity is one more than the least power of two above the argument, at most 1025 |
| Selectors.RegisterStaysInTable | src/lib/selector.c:361-371 | the guard as written keeps the slot in the table if and only if the descriptor differs from the size |
| Selectors.InitialSizesWithoutGap | src/lib/selector.c:301-319 | no valid descriptor equals the initial size if and only if the selector was made for 512 elements or more |
| Selectors.NextSize | src/lib/selector.c:256-299 | every growth at least doubles the size minus one, so no run allocates more than 11 times |
| Selectors.Selector.EnsureCapacity | src/lib/selector.c:256-299 | grows to the capacity when needed, keeps all registrations, refuses beyond the limit, and counts its allocations |
| Selectors.Selector.Register | src/lib/selector.c:352-390 | status and new table for every descriptor but the one that equals the size of the table; table, sets and maximum keep agreeing |
| Selectors.Selector.SetInterest | src/lib/selector.c:428-446 | status and new table for every descriptor that is invalid or has a slot; the sets follow |
| Selectors.Selector.Unregister | src/lib/selector.c:392-426 | status, new table and the close callback for every descriptor that is invalid or has a slot; the maximum and the sets follow |
| Selectors.Selector.ItemsMaxFd | src/lib/selector.c:219-232 | the maximum of the used descriptors, zero when there is none |
| Selectors.Selector.UpdateFdSets | src/lib/selector.c:234-249 | a used item is in a set exactly when it has that interest, and an unused one leaves both |
| Selectors.Selector.HandleIteration | src/lib/selector.c:466-499 | the loop over the table, while callbacks change that table, refines the pass on the abstract table |
| Selectors.PassIsSound | src/lib/selector.c:466-499 | whatever the callbacks do: every callback is entered only for a descriptor that select reported and that is registered with that interest at that moment; calls come in slot order with reading before writing, each at most once; nothing follows a missing callback; the trace explains the final table |
| Selectors.FreshPassIsSound | src/lib/selector.c:466-499 | the same for a whole iteration |
| Selectors.PassServes | src/lib/selector.c:466-499 | every descriptor up to the maximum that select reported and that is registered for it gets its callback with its attachment in the same pass, if the pass does not fail and no earlier callback touches it |
| Selectors.QuietPass | src/lib/selector.c:466-499 | when callbacks leave the selector alone, exactly the wanted callbacks are called, each with its attachment |
| Selectors.StatusExactly | src/lib/selector.c:352-446 | when each operation succeeds and with which status it fails otherwise |
| Selectors.SlotsAfter | src/lib/selector.c:352-446 | only the named slot changes, and only on success: a registration is as ordered, a change of interest keeps handler and attachment, unregistering frees the slot |
| Selectors.ClosesExactly | src/lib/selector.c:392-426 | the close callback is called by exactly the successful removals of descriptors that have one |
| Selectors.WriteAttachment | src/lib/selector.c:474-495 | the attachment of the write half differs from the present one if and only if the read callback ran, its script unregisters the descriptor, and the first registration behind the last such command brings another attachment; the write callback is entered with it all the same |
| Selectors.Selector.Destroy | src/lib/selector.c:321-348 | nothing stays registered, and the close callbacks are those of the table in order |
| Selectors.ClosesEachOnce | src/lib/selector.c:321-348 | the close callbacks are exactly those of the registered items that have one, each once |
| Registry.MailRegistry.RegisterMail | src/lib/access_registry.c:92-132 | the new node is appended by name and inserted in time order before the mails of the same time; both intrusive lists thread the same nodes without cycles, the counter is their length, and the user list holds sender and recipient once |
| Registry.MailRegistry.FindPlace | src/lib/access_registry.c:112-129 | the search stops at the first node that is not older, with its predecessor |
| Registry.TimeOrderIsUnique | src/lib/access_registry.c:112-129 | two lists of the same mails in time order, newest first among equal times, are equal: the order is determined by the registrations |
| Registry.MailRegistry.IsUserPresent | src/lib/access_registry.c:277-288 | the walk finds a name if and only if it is in the list |
| Registry.MailRegistry.AddUser | src/lib/access_registry.c:290-299 | a new name is put in front, a known one changes nothing |
| Registry.MailRegistry.MailsByTime | src/lib/access_registry.c:224-246 | the scan that stops early visits exactly the registered mails in the range, in time order |
| Registry.RangeIsSlice | src/lib/access_registry.c:224-246 | in a list in time order, the mails of a range are a contiguous slice |
| Registry.MailRegistry.PrintMails | src/lib/access_registry.c:181-222 | the text is the longest prefix of the sender's mails that stays below 1024 characters, cut to the caller's buffer |
| Registry.SentByIsFilter | src/lib/access_registry.c:181-222 | the listed mails are exactly those that the user sent, in the order of registration |
| Registry.RenderedReadsBack | src/lib/access_registry.c:181-222 | an entry tells sender, recipient, path and time behind their tags, whatever follows it |
| Registry.ListingReadsBack | src/lib/access_registry.c:181-222 | a listing of mails without line feeds in their fields tells all of them, in order |
| Registry.MailRegistry.Free | src/lib/access_registry.c:134-159 | every mail and every user is freed exactly once |
| Parsers.Parser.Feed | src/lib/parser.c:52-86 | the first matching transition of the state's row is taken and its events are issued; without a match nothing changes |
| Parsers.MatchesExactly | src/lib/parser.c:52-86 | a transition is for one character, for any, or for the classes with a common bit |
| Parsers.StrCmpI | src/lib/parser_utils.c:78-140 | for every ASCII string the arrays filled in place are the comparison automaton, with all indices and destinations in the table |
| Parsers.StepDecides | src/lib/parser_utils.c:78-140 | one step of the compiled table leads from the state of a text to the state of the longer text, with its verdict |
| Parsers.Compare | src/lib/parser.c:52-86 | feeding any non-empty text to the compiled automaton ends in EQ exactly for a text equal ignoring case, MAYEQ exactly for a proper prefix, NEQ otherwise |
| Parsers.NeqIsAbsorbing | src/lib/parser_utils.c:78-140 | once different, always different |
| Monitor.PrepareBuffer | monitor_client/client_monitor.c:110-132 | the client's packet for an id and a command on a host of either byte order |
| Monitor.ParseMessage | src/lib/monitor.c:112-196 | the checks in order give the verdict, with the status of the first that fails |
| Monitor.AcceptsExactlyRequests | src/lib/monitor.c:112-196 | a packet is accepted with an id and a command if and only if it is the client's image of them, for either byte order of both hosts |
| Monitor.ImageBytes | monitor_client/client_monitor.c:110-132 | the 14 bytes of a client of either byte order |
| Monitor.RefusalsTell | src/lib/monitor.c:112-196 | a packet that is short or has another signature is not answered; otherwise the first wrong field of version, token, command and length gives the status |
| Monitor.MixedHostsDisagree | monitor_client/client_monitor.c:110-132 | a client's request is accepted if and only if both hosts have the same byte order |
| Monitor.HtoBe64ThenStore | src/lib/monitor.c:288-302 | converting and storing a 64-bit value puts its bytes in network order, for either byte order |
| Monitor.LoadThenBe64toH | monitor_client/client_monitor.c:282-290 | loading and converting the bytes in network order gives the value back |
| Monitor.SwapThenStore | src/lib/monitor.c:79-110 | htonl and htons store network order |
| Monitor.LoadThenSwap | monitor_client/client_monitor.c:17-54 | ntohl and ntohs give the value back |
| Monitor.Counters.HandlePacket | src/lib/monitor.c:198-254 | a wrong signature has no response, another error its status, an accepted request its id and the counter in network order |
| Monitor.Ask | monitor_client/client_monitor.c:17-54 | request, answer and display: the client shows total connections, current connections and sent bytes for their commands, and STATUS as on |
| Monitor.Counters.AddConnection | src/lib/monitor.c:256-261 | both counters go up, modulo their width |
| Monitor.Counters.CloseConnection | src/lib/monitor.c:263-267 | the current counter goes down, modulo its width |
| Monitor.Counters.AddSentBytes | src/lib/monitor.c:269-273 | the bytes are added modulo 64 bits, and an error code of -1 takes one away |
| Logger.Log.MakeBufferSpace | src/lib/logger.c:67-99 | pending bytes are kept, the free space afterwards is exact for every case, and suffices whenever malloc succeeds below the maximum; the capacity stays a multiple of 4 KB between 4 KB and 4 MB |
| Logger.NewCapacityIsLeast | src/lib/logger.c:67-99 | the new capacity is the least multiple of 4 KB that is enough, and at most 4 MB |
| Logger.Log.TryFlush | src/lib/logger.c:106-120 | what write took moves from the queue to the file, and write interest is set exactly while bytes wait |
| Logger.Log.LogF | src/lib/logger.c:262-302 | the accepted prefix of a message is exact; the queue is conserved if and only if the log was not exhausted, and otherwise loses one byte |
| Logger.Log.Run | src/lib/logger.c:67-302 | over every run file and pending bytes are the accepted prefixes in order if and only if no byte was lost; with working malloc, short messages and room for all of them, every message is kept whole |

## Left out

- Sockets, `pselect`, signals, threads, `fork`, `pipe`, `sendfile`: their results are parameters of the events.
- Directories and file names (src/lib/maildir.c): files are told apart by mailbox, the name of a connection's files is taken as new, and creating directories and files succeeds.
- The transformation child process; without it, both descriptors that the header lines are written to are the same file.
- Calendar and date parsing, and so `print_mails_by_day`; whether an argument is a date is an answer of the environment.
- The mock mails of the registry, and `last_by_time`, which the source does not maintain after the first insert.
- src/lib/request_admin.c where it differs from src/lib/request.c: the verb overflow that leaves `next` unassigned (lines 89-93) is taken as an error.
- Failing `malloc` except in the logger.
- Blocking jobs of the selector and its wake-up signal.
- The log's stream, its level, an error of `snprintf`, and the flush at close.
- Resynchronisation after a syntax error and dot-unstuffing (section 4.5.2 of RFC 5321), which the server does not do.
- src/lib/args.c and the SOCKS leftovers.
- The table of character classes that has 255 entries (src/lib/parser.c:88) where src/lib/headers/parser.h asks for 256: the model takes 256, so the class of the byte 255 is not outside the table.
- ReferenceServer.RunsSimulate: leaves out incomplete sends that find REQUEST_READ while a body or an administrative command is expected; the dialogue then gets a request that no client meant for it.
- MailTransfer.MailIsDelivered: constructs one conversation, whose body arrives in one fill, because a terminator cut in two is not recognised (`BodySyntax.TerminatorMustArriveWhole`) and a second fill is written over the first (`Spools.FillsKeepTheBody`); what arrives over every schedule is `ReferenceServer.MailsArrive`.
- ConnectionObjects.Connection.WriteHandler: when the callback of the spool file runs for the client's socket, the number that the event gives for `send` is taken as the result of `write`.
- RequestParsers.RequestParser.ConsumeBody: requires a parser that is not done, as every parser of REQUEST_DATA is when it is called.
- SmtpSessions.SmtpSession.HandleTo: the bounded array of recipients (src/lib/headers/smtp.h:53), whose two sizes are swapped, is a sequence of addresses.
- SmtpSessions.SmtpSession.HandleXTran: does not set the flag of the transformation, which only the child process uses.
- SmtpSessions.SmtpSession.HandleBody: requires the text to fit, which `ConnectionObjects.Connection.RequestProcess` proves at its call.
- Selectors.Selector.EnsureCapacity: allocations succeed.
- Selectors.Selector.Register: requires that the descriptor is not the table's size, where the source leaves its table; `Selectors.RegisterStaysInTable` is the exact condition.
- Selectors.Selector.SetInterest: requires a slot in the table for a valid descriptor, which the source does not check.
- Selectors.Selector.Unregister: requires a slot in the table for a valid descriptor, which the source does not check.
- Selectors.Selector.HandleIteration: callbacks may register, unregister and change interests of any descriptor, with the table at the size that the server gives it, where it never moves; close callbacks do not touch the selector.
- Registry.MailRegistry.MailsByTime: gives the visited mails, not their text, and so not what happens when that outgrows its array.
