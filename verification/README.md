# Verified model of a registrar test harness

The repository drives domain registrars over EPP and RRI: a client adapter that holds one EPP session, a scenario
runner that plays YAML steps against a registrar and tears down what it created, mock servers that misbehave on
demand, and the wire formats below them. This project models that code in Dafny and proves what it keeps over every
call sequence, every interleaving of connections and every input.

`dafny verify dfyconfig.toml` checks everything. The modules follow the program:

- `Text`, `Markup`: the string functions the other modules use (trimming, searching, ASCII case, decimal printing), and
  tags in text put together from pieces.
- `Framing`: length-prefixed frames of both protocols (section 4 of RFC 5734 for EPP), chunked reads, broken frames.
- `KeyValue`: the RRI "key: value" text.
- `Interpolation`, `Params`: `${step.field}` references, the deep merge of overrides, the run-ID prefix.
- `DomainCheck`: the names read out of a request and written into the mock's reply.
- `FaultInjection`, `SessionLoop`, `EppMockServer`, `EppReplies`, `RriMockServer`, `MockWire`: the fault engine, the loop
  both standalone servers share, each server, what its replies say, and what a client reads off an EPP session.
- `InProcessRri`, `InProcessEpp`: the in-process mocks as interleaved atomic steps of connection goroutines.
- `EppAdapter`, `EppSafety`: the EPP client session (sections 2.4, 2.9.1.1 and 3 of RFC 5730) and what every run keeps.
- `Runner`, `Teardown`, `WaitForPoll`, `Reports`: the scenario runner, its cleanup against a registry with
  references, the poll loop, and the report counters.

Each stateful part has a value-level description (a state and a step function) and a class or method in the form of
the original, proved equal to it; the laws are lemmas about the description. The network is a parameter: every dial,
greeting, write and read may turn out any way, so "for all arguments" includes every failure.

Where the code and its comments differ, the model follows the code:

- `withConn` uses the connection without a nil test, so a held connection is a precondition here, and
  `ConnectionAfterOperation` says which exits leave one.
- `Logout` gives the connection up only once a response has been decoded, so operations can follow an unanswered one
  (`ConnectionAfterLogout`, `OperationAfterLogoutIff`).
- A second `Login` overwrites an open connection without closing it (`OnlyReloginLeaks`).
- The run-ID prefix is added after interpolation, so a resolved reference is prefixed too (`ReferenceEscapesPrefixIff`).
- A create that returned an expected error still registers a cleanup, and one that succeeded but failed its
  expectation does not (`RegistersIff`, `UnregisteredReferrerBlocks`).
- An expectation with neither code nor fields lets every EPP error pass (`EmptyExpectationPassesIff`).
- `InjectPoll` is drained once per pass, before the blocking read (`BlockedReaderSendsNoPoll`).
- The length-overflow header wraps at 2^32, where it no longer breaks the reader (`OverflowFailsIff`).
- The PHP client takes a length below four for an empty message instead of refusing it (`PhpRead`).
- The domain:check reply carries no clTRID, whatever the request held (`CheckReplySays`).

## Model

| member | source | states |
|---|---|---|
| Framing.DecodeIff | pkg/epp/frame/frame.go:16-47 | a reader yields a payload and leaves a remainder exactly when the stream is that payload written as a frame, then the remainder, and the size fits the wire |
| Framing.HeaderBytes | pkg/epp/frame/frame.go:37-39 | the header's most significant byte comes first |
| Framing.SendableIff | pkg/mock/rri/frame.go:24-30 | the bounds in figures: 1 to 65536 for RRI, length + 4 below 2^32 for EPP |
| Framing.RoundTripIff | pkg/mock/rri/frame.go:19-53 | a written frame reads back as itself exactly for lengths 1 to 65536 on RRI and length + 4 below 2^32 on EPP |
| Framing.StreamRoundTrip | pkg/epp/frame/frame.go:11-47 | any list of payloads written back to back is split into the same list, on either wire |
| Framing.TruncationFails | pkg/epp/frame/frame.go:16-30 | a frame cut anywhere yields no payload, and the error tells whether the cut fell in the header |
| Framing.RriFrameReadAsEpp | pkg/mock/rri/frame.go:9-18 | taken for an EPP frame, an RRI frame loses its last four payload bytes to the next read, or is refused when shorter |
| Framing.OverflowFailsIff | pkg/fault/engine.go:117-137 | the bytes of a length overflow, then a close, fail the Go reader unless the claimed length wrapped to one the body covers |
| Framing.OverflowFailsPhpIff | docs/examples/php/epp.php:22-37 | the same bytes fail the PHP reader exactly when the claimed length did not wrap |
| Framing.MalformedHeadersRefused | pkg/mock/epp/server.go:235-242 | the malformed headers of both in-process mocks are refused after four bytes, the rest unread |
| Framing.Reader.ReadFull | pkg/epp/frame/frame.go:16-30 | whatever the chunk sizes, the buffer gets exactly the next bytes, or the stream is drained and the read fails |
| Framing.Reader.ReadExact | docs/examples/php/epp.php:22-32 | the PHP loop gets the same bytes as a full read for every chunking |
| Framing.ReadFrame | pkg/epp/frame/frame.go:16-30 | one read equals the decoding of the pending bytes, error cases included, and consumes exactly what that says |
| Framing.ReadRriFrame | pkg/mock/rri/frame.go:19-37 | the same for RRI with its bounds |
| Framing.PhpRead | docs/examples/php/epp.php:34-37 | equals the EPP decoding except that a length below four counts as an empty message |
| Framing.ReceiveAll | pkg/epp/frame/frame.go:16-30 | repeated reads give the frames of the stream, however it was chunked |
| Framing.WriteFrame | pkg/epp/frame/frame.go:36-47 | success exactly when the whole frame got out; otherwise exactly a prefix of it did |
| Framing.WriteRriFrame | pkg/mock/rri/frame.go:43-53 | the same for RRI |
| KeyValue.ParseConcat | pkg/mock/rri/kv.go:18-35 | two messages joined by a newline parse to the key-wise concatenation of their parses |
| KeyValue.ParseNormal | pkg/mock/rri/kv.go:18-35 | every parse has lower-case trimmed keys without colon, trimmed one-line values and no empty list |
| KeyValue.RoundTripIff | pkg/mock/rri/kv.go:39-50 | for every iteration order, formatting then parsing gives the map back exactly when it is in that normal form |
| KeyValue.ParseFormatParse | pkg/mock/rri/kv.go:18-50 | parse, format in any order, parse again changes nothing |
| KeyValue.ParseKV | pkg/mock/rri/kv.go:18-35 | the line loop computes the grouped pairs the laws are about |
| KeyValue.FormatKV | pkg/mock/rri/kv.go:42-50 | the text is the rendering for some enumeration of the keys, and reads back exactly for normal maps |
| KeyValue.FirstLineWins | pkg/mock/rri/kv.go:52-60 | the first line that has a key, in any letter case, gives the field |
| KeyValue.RenderOne | pkg/mock/rri/kv.go:39-50 | how one field is written |
| Interpolation.MatchIff | pkg/runner/interpolate.go:12-15 | the pattern matches at a position exactly when a brace token of two words stands there |
| Interpolation.ReplacesEveryToken | pkg/runner/interpolate.go:21-38 | around any occurrence of a token the text splits into independent parts, so no occurrence is missed and none overlap |
| Interpolation.ResolvedReplaced | pkg/runner/interpolate.go:21-38 | a reference to a captured field gives way to its value wherever it stands |
| Interpolation.UnresolvedStays | pkg/runner/interpolate.go:28-35 | a reference to a step or field that is not captured stays in place |
| Interpolation.KeepsOtherText | pkg/runner/interpolate.go:21-38 | text without a token is unchanged |
| Interpolation.SplitsAtDollar | pkg/runner/interpolate.go:12-38 | the scan up to a dollar sign and the scan from it on are independent |
| Interpolation.TokenAlone | pkg/runner/interpolate.go:22-37 | a lone token becomes the captured value, and stays as it is when step or field is not captured |
| Interpolation.SecondPassIff | pkg/runner/interpolate.go:21-38 | a second pass changes nothing, for every text whose dollar signs head tokens, exactly when each captured value survives a pass on its own and none ends in the beginning of a token that would be replaced |
| Interpolation.SecondPassIsIdentity | pkg/runner/interpolate.go:21-38 | a second pass changes nothing when dollar signs only head tokens and captured values hold none |
| Interpolation.ValueConditionNeeded | pkg/runner/interpolate.go:21-38 | a captured value that is itself a token makes the second pass differ |
| Interpolation.TextConditionNeeded | pkg/runner/interpolate.go:21-38 | a stray dollar sign completed by a value makes the second pass differ |
| Params.MergeAt | pkg/runner/scenario.go:67-85 | along every path: the override decides unless it lacks a key before any other value, in which case the base does |
| Params.OverrideWins | pkg/runner/scenario.go:61-85 | every value of the override is in the merge at its path |
| Params.MergeUnique | pkg/runner/scenario.go:67-85 | no other tree has the paths MergeAt describes |
| Params.MergeIdentity | pkg/runner/scenario.go:67-85 | the empty map is a two-sided identity |
| Params.MergeIdempotent | pkg/runner/scenario.go:67-85 | merging a tree into itself changes nothing |
| Params.MergeAbsorbsIff | pkg/runner/scenario.go:67-85 | a base adds nothing exactly when the override covers it |
| Params.MergeAssociativeIff | pkg/runner/scenario.go:67-85 | layered overrides may be merged in either order exactly when no path is table, other value, table with the last not covering the first |
| Params.DeepMerge | pkg/runner/scenario.go:67-85 | the recursive loops compute the merge for every iteration order and leave the inputs alone |
| Params.InterpolateParams | pkg/runner/interpolate.go:43-64 | strings, and strings directly in lists, are interpolated; every other value and every key is kept |
| Params.InjectRunIDPrefix | pkg/runner/interpolate.go:100-116 | the loop prefixes name and id of a create and nothing else |
| Params.ReferenceEscapesPrefixIff | pkg/runner/runner.go:65-75 | a reference used as a name escapes the prefix exactly when its step or field is not captured or the value starts like a reference |
| Params.PrepareMeaning | pkg/runner/runner.go:62-76 | what a step is executed with, key by key: the override decides, references are resolved, identities of a create prefixed |
| Params.InterpolationReach | pkg/runner/interpolate.go:43-64 | interpolation reaches strings and strings directly in lists, and leaves everything deeper alone |
| Params.PrefixOnlyOnIdentities | pkg/runner/interpolate.go:96-116 | what the prefix may touch, and that it touches every plain name or id of a create |
| DomainCheck.ExtractIff | cmd/mock-epp-server/main.go:519-548 | a name is extracted exactly when it stands, trimmed and non-blank, between a '>' not ending a closing tag and the next closing tag |
| DomainCheck.ExtractOrder | cmd/mock-epp-server/main.go:521-548 | extracted names come in the order in which their first occurrences end in the text |
| DomainCheck.DedupMeaning | cmd/mock-epp-server/main.go:521-548 | the list keeps each name once, in the order of first occurrences |
| DomainCheck.ExtractGood | cmd/mock-epp-server/main.go:521-548 | extracted names are trimmed, non-blank, free of '>' and distinct |
| DomainCheck.ResponseRoundTrip | cmd/mock-epp-server/main.go:487-548 | reading the reply back gives exactly the names read from the request, or example.com when there were none |
| DomainCheck.ExtractDomainNames | cmd/mock-epp-server/main.go:521-548 | the scan terminates and computes the extraction |
| DomainCheck.DomainCheckResp | cmd/mock-epp-server/main.go:487-517 | the built reply, and that it names exactly what was asked for |
| FaultInjection.FirstMatchMeaning | pkg/fault/engine.go:84-101 | the rule found applies and no earlier one does, and conversely |
| FaultInjection.OperationMeaning | pkg/fault/engine.go:75-108 | an operation within the limit is decided and delayed by the first rule whose needle stands in the frame on top of the global delay, or by the global settings when there is none |
| FaultInjection.WrapMeaning | pkg/fault/engine.go:79-95 | a delay sum wraps by a multiple of 2^64 and is kept when it fits |
| FaultInjection.InterleavingProjects | pkg/fault/engine.go:52-150 | any mix of logins, operations and responses is three independent runs; only the first response may be corrupted and every other goes out as it is |
| FaultInjection.FlapThenAllow | pkg/fault/engine.go:52-69 | in any run a flapping login is denied for the first configured attempts and allowed afterwards |
| FaultInjection.LoginMeaning | pkg/fault/engine.go:52-69 | the verdict on the n-th login told from the profile's login mode and fail count |
| FaultInjection.VerdictIff | pkg/fault/engine.go:75-108 | the verdict on the n-th operation told from the limit, the first rule whose needle stands in the frame, and the global mismatch |
| FaultInjection.FaultEngine.OnLoginAttempt | pkg/fault/engine.go:52-69 | decision and new counters are those of the login index |
| FaultInjection.FaultEngine.OnOperation | pkg/fault/engine.go:75-108 | decision, delay and new counters are those of the operation index and frame |
| FaultInjection.FaultEngine.ApplyResponseFault | pkg/fault/engine.go:117-150 | what is sent, what is written past the caller and the latch, for each kind of malformed frame |
| SessionLoop.PassKeeps | cmd/mock-epp-server/main.go:248-362 | one pass of a server loop leaves what is out plus what is still to come unchanged |
| SessionLoop.LoopPrefix | cmd/mock-epp-server/main.go:248-362 | with fewer successful writes a session writes a prefix of what it would have written |
| SessionLoop.LoopOperationBound | cmd/mock-epp-server/main.go:311-362 | a server whose operation replies are counted below a bound sends at most that many |
| SessionLoop.LoopCorruption | cmd/mock-epp-server/main.go:311-362 | in any session the corrupted writes are the first operation reply if the latch was open, every other write is what a server without the fault writes, and nothing follows the last words |
| SessionLoop.LoopSays | cmd/mock-epp-server/main.go:248-362 | a server that follows a course answers exactly the frames no earlier frame ends the session before and that are not met with silence, in order, as far as its writes succeed |
| SessionLoop.LaterFramesIgnored | cmd/mock-epp-server/main.go:248-362 | once a frame has ended a session, frames after it change nothing |
| EppMockServer.HandleConn | cmd/mock-epp-server/main.go:222-363 | for every profile, frame sequence and write failure the connection gets exactly the transcript |
| EppMockServer.HandleFrame | cmd/mock-epp-server/main.go:262-361 | one pass writes what the step says and goes on unless the step or a failed write stops it |
| EppMockServer.AtMostDisconnectAfter | cmd/mock-epp-server/main.go:311-315 | with a positive DisconnectAfter at most that many operations are answered on a connection |
| EppMockServer.TranscriptCorruption | cmd/mock-epp-server/main.go:222-363 | a write is corrupted, in the configured way, exactly when it is the first operation reply under a corrupting profile; every other one is what is due to some reached frame; nothing follows an overflow or a logout reply |
| EppMockServer.TranscriptAnswers | cmd/mock-epp-server/main.go:222-363 | the transcript in terms of the profile's fields, for every frame sequence and write failure: which frames are reached, which get no answer, and what each other one is answered with |
| EppMockServer.FrameAnswered | cmd/mock-epp-server/main.go:262-362 | every reached frame the profile does not leave unanswered gets what is due to it |
| EppMockServer.DenialAnswered | cmd/mock-epp-server/main.go:283-289 | a reached login that the profile denies is answered with the denial and the session goes on |
| EppMockServer.WriteFailureTruncates | cmd/mock-epp-server/main.go:222-363 | a failed write only cuts the transcript short |
| EppMockServer.NothingAfterTheEnd | cmd/mock-epp-server/main.go:222-363 | frames sent after a logout, overflow or disconnect change nothing |
| EppMockServer.FaultFreeTranscript | cmd/mock-epp-server/main.go:222-363 | with the zero profile: the greeting, then a pure responder mapped over the frames up to the first logout |
| EppMockServer.ChecksAnswered | cmd/mock-epp-server/main.go:336-517 | a domain:check reached by a fault-free session is answered with exactly the names it asked for |
| EppReplies.IdentifierReturned | cmd/mock-epp-server/main.go:386-427 | the client's transaction identifier comes back: read with the mock's own reader, the reply's is the request's |
| EppReplies.RepliesSay | cmd/mock-epp-server/main.go:283-306 | a denied login is told 2200, an allowed one 1000, a logout 1500, each with the client's identifier |
| EppReplies.OperationsSay | cmd/mock-epp-server/main.go:240-350 | an object command is told 1000 with its identifier, an unknown one 2000 |
| EppReplies.MismatchesSay | cmd/mock-epp-server/main.go:318-335 | a mismatched create is answered about the sentinel object, any other operation with a plain 1000 |
| EppReplies.CheckReplySays | cmd/mock-epp-server/main.go:487-517 | the domain:check reply says 1000 and carries no client identifier, whatever the request held |
| EppReplies.ClassifyIff | cmd/mock-epp-server/main.go:43-50 | a frame is a login when a login element in any namespace stands in it, else a logout when a logout element does |
| MockWire.StreamReads | pkg/fault/engine.go:117-137 | reading a server's bytes gives its framed payloads in order, and the closing error tells whether it ended in an overflow |
| MockWire.ClientReads | cmd/mock-epp-server/main.go:222-363 | a client of any EPP session gets exactly the framed replies and is cut inside a frame exactly when an operation reply met the overflow setting |
| RriMockServer.HandleConn | cmd/mock-rri-server/main.go:115-203 | for every profile, frame sequence and write failure the connection gets exactly the transcript |
| RriMockServer.EppFaultsIgnored | cmd/mock-rri-server/main.go:115-203 | the malformed-frame and mismatch faults of a profile, global or per rule, never show |
| RriMockServer.AtMostDisconnectAfter | cmd/mock-rri-server/main.go:115-203 | with a positive DisconnectAfter at most that many queries are answered |
| RriMockServer.NeverCorrupted | cmd/mock-rri-server/main.go:115-210 | whatever the profile, every reply is the success text of some frame's STID, or the failure text when that frame is a denied login; nothing follows the reply to a LOGOUT |
| RriMockServer.TranscriptAnswers | cmd/mock-rri-server/main.go:134-203 | the transcript in terms of the profile's fields, for every frame sequence and write failure: which frames are reached, which get no answer, and what each other one is answered with |
| RriMockServer.NothingAfterTheEnd | cmd/mock-rri-server/main.go:115-203 | frames sent after a LOGOUT or disconnect change nothing |
| RriMockServer.FaultFreeTranscript | cmd/mock-rri-server/main.go:115-210 | without faults every frame up to the first LOGOUT is answered with success, logged in or not |
| RriMockServer.WrittenFrames | cmd/mock-rri-server/main.go:139-220 | a frame written from normal fields, in any order, is taken for the action its field names in any letter case |
| RriMockServer.ReplyFields | cmd/mock-rri-server/main.go:150-210 | a client parses from each reply whether it succeeded and the STID drawn for it |
| RriMockServer.LogoutEndsSession | cmd/mock-rri-server/main.go:170-176 | with the server's own parsing, the first frame with a logout action is the last one answered |
| InProcessRri.ScriptConserved | pkg/mock/rri/server.go:196-271 | over any interleaving, items handed out plus items queued are the items pushed, in order |
| InProcessRri.ConsumptionEarned | pkg/mock/rri/server.go:215-263 | a connection takes an item only after its own successful LOGIN and for a command not yet answered |
| InProcessRri.OneItemPerCommand | pkg/mock/rri/server.go:215-263 | between two items taken by a connection lies a non-LOGIN frame it read |
| InProcessRri.AllJustified | pkg/mock/rri/server.go:203-271 | in every reachable state the login state and position of a connection are justified by the events before |
| InProcessRri.AllEarned | pkg/mock/rri/server.go:196-285 | in every run each check, reply, item and frame of a connection is earned by what it did before |
| InProcessRri.RepliesEarned | pkg/mock/rri/server.go:215-243 | an automatic reply is a success exactly for a LOGIN whose credentials were registered when checked, login-first exactly for any other command before a login, and a failure for every other LOGIN |
| InProcessRri.ReplyFields | pkg/mock/rri/server.go:287-296 | a client parses from each automatic reply whether it succeeded, its STID and why it failed |
| InProcessRri.ItemGoesOn | pkg/mock/rri/server.go:244-262 | a connection reads on after an item exactly when the item is usable, was written, and did not answer a LOGOUT |
| InProcessRri.ReplyGoesOn | pkg/mock/rri/server.go:219-243 | a connection reads on after a reply exactly when it could be written |
| InProcessRri.FailuresClose | pkg/mock/rri/server.go:205-263 | a failed read, and the end of the test while an item is awaited, close a connection |
| InProcessRri.CommandGoesOn | pkg/mock/rri/server.go:215-263 | what each kind of frame leads to next |
| InProcessRri.StidsDistinct | pkg/mock/rri/server.go:287-296 | no two automatic replies of a server carry the same STID text |
| InProcessRri.LoginNeverReverts | pkg/mock/rri/server.go:203-243 | in every run a connection once logged in is logged in from then on |
| InProcessRri.OthersUntouched | pkg/mock/rri/server.go:196-271 | one connection's step touches no other connection |
| InProcessRri.MockRRIServer.RegisterUser | pkg/mock/rri/server.go:156-160 | the registration replaces the user's earlier one |
| InProcessRri.ClosedIsFinal | pkg/mock/rri/server.go:196-271 | in every run a closed connection stays closed and no later event is its own |
| InProcessRri.MockRRIServer.OnFrame | pkg/mock/rri/server.go:215-263 | parsing and the switch on login state and action make exactly the read step |
| InProcessRri.MockRRIServer.HandleLogin | pkg/mock/rri/server.go:275-285 | the user table decides the login step |
| InProcessRri.MockRRIServer.SendAnswer | pkg/mock/rri/server.go:287-296 | the reply text carries the STID just drawn |
| InProcessRri.MockRRIServer.Dispatch | pkg/mock/rri/server.go:244-262 | the head of the script is taken; the connection stays only if the item was known, written and no LOGOUT |
| InProcessEpp.QueuesConserved | pkg/mock/epp/server.go:151-254 | over any interleaving, both queues are FIFO and lose or repeat nothing |
| InProcessEpp.OnePollPerAnswer | pkg/mock/epp/server.go:187-226 | between two polls written on a connection lies a scripted response on it |
| InProcessEpp.OneAnswerPerFrame | pkg/mock/epp/server.go:187-226 | between two scripted responses on a connection lies a frame it read |
| InProcessEpp.EveryEventFits | pkg/mock/epp/server.go:187-226 | every event of a connection follows what it did last as the loop prescribes |
| InProcessEpp.BlockedReaderSendsNoPoll | pkg/mock/epp/server.go:187-198 | a connection blocked reading or answering writes no poll before its next scripted response |
| InProcessEpp.QueuedPollGoesOut | pkg/mock/epp/server.go:187-226 | a poll queued while a connection is blocked reading goes out on it right after its next scripted response |
| InProcessEpp.GoesOn | pkg/mock/epp/server.go:187-226 | where each act leads a connection: it drains again after a usable item, and closes on a failed write or an unusable one |
| InProcessEpp.QueuesBounded | pkg/mock/epp/server.go:100-110 | the channels never hold more than 8 polls and 32 items |
| InProcessEpp.MockEPPServer.DrainPoll | pkg/mock/epp/server.go:187-196 | at most one poll is taken, the oldest, without blocking |
| InProcessEpp.MockEPPServer.DispatchNext | pkg/mock/epp/server.go:218-254 | the head of the script is taken; an unknown item or failed write closes |
| EppAdapter.GenericEPPAdapter.DoReadGreeting | pkg/registrar/epp/connect.go:108-148 | the filter loop keeps the configured extensions the greeting advertised, in configured order |
| EppAdapter.GenericEPPAdapter.DoSendLogin | pkg/registrar/epp/connect.go:153-214 | a fresh identifier, one login frame listing the filtered extensions, and the outcome of its answer |
| EppAdapter.GenericEPPAdapter.DoDial | pkg/registrar/epp/connect.go:66-102 | the whole client state after connect, greeting, login and the close on failure |
| EppAdapter.GenericEPPAdapter.Reconnect | pkg/registrar/epp/connect.go:219-233 | close what is held, then dial |
| EppAdapter.GenericEPPAdapter.DoWithConn | pkg/registrar/epp/connect.go:241-259 | state and outcome of an operation with its single retry |
| EppAdapter.GenericEPPAdapter.DoLogout | pkg/registrar/epp/adapter.go:124-172 | state and outcome of a logout for each way the exchange can go |
| EppAdapter.GenericEPPAdapter.Close | pkg/registrar/epp/adapter.go:103-113 | the held connection, if any, is closed and forgotten |
| EppAdapter.GenericEPPAdapter.NextClTRID | pkg/registrar/epp/adapter.go:197-200 | the identifier printed is that of the raised counter |
| EppSafety.AlwaysSafe | pkg/registrar/epp/connect.go:66-259 | after any calls, no connection has broken the order dial, greeting, one login, acceptance, operations and logouts, close, and a held one is accepted |
| EppSafety.NoFrameBeforeLogin | pkg/registrar/epp/connect.go:66-102 | no connection ever dialled carries an operation, hello or logout frame before its own accepted login |
| EppSafety.AnsweredLogoutIsFinal | pkg/registrar/epp/adapter.go:145-172 | in every run nothing but the close follows an answered logout on its connection |
| EppSafety.OperationAfterLogoutIff | pkg/registrar/epp/adapter.go:124-172 | an operation frame can follow a logout on the same connection exactly when no response to the logout was decoded |
| EppSafety.LogoutOutcomeIff | pkg/registrar/epp/adapter.go:124-172 | a logout succeeds or fails by the code of a decoded result, and counts as lost in every other case |
| EppSafety.HeldConnectionLoggedIn | pkg/registrar/epp/connect.go:77-102 | a held connection had its greeting read and its login, listing exactly the common extensions, answered below 2000 |
| EppSafety.BothMeaning | pkg/registrar/epp/connect.go:129-147 | an extension is asked for exactly when configured and advertised |
| EppSafety.BothOrder | pkg/registrar/epp/connect.go:129-147 | a login lists the common extensions in configured order, each configured one that is advertised |
| EppSafety.RunOutcomeIff | pkg/registrar/epp/connect.go:241-274 | the three outcomes of one run told from the exchange: a server error from its code, a transport failure from what went missing, success otherwise |
| EppSafety.PerformTrace | pkg/registrar/epp/adapter.go:176-226 | one run leaves exactly its attempt, its frame under a fresh number if the request encodes, and the code of a decoded answer |
| EppSafety.IdentifiersDistinct | pkg/registrar/epp/adapter.go:195-200 | command frames of an adapter's life carry increasing counters and distinct clTRID strings |
| EppSafety.RetryPolicy | pkg/registrar/epp/connect.go:235-259 | one or two runs and at most one dial; two exactly when the first run failed without a server error and the network admits the client again; success and server error are those of the last run |
| EppSafety.ReconnectsIff | pkg/registrar/epp/connect.go:219-259 | the held connection is closed right after the first run exactly when that run failed without a server error |
| EppSafety.DialOutcomeIff | pkg/registrar/epp/connect.go:66-214 | a dial succeeds exactly when the connection, the greeting, the login request and an answer below 2000 all come about |
| EppSafety.AdmittedTrace | pkg/registrar/epp/connect.go:66-214 | an admitted dial leaves exactly: dialled, greeted, a login for what is configured and advertised, accepted |
| EppSafety.SucceedsWithLastRun | pkg/registrar/epp/connect.go:235-259 | a call succeeds exactly when the exchange of its last run was answered without error and with the data needed |
| EppSafety.ServerErrorNotRetried | pkg/registrar/epp/connect.go:245-250 | an answer of 2000 or above, or 1300 to a poll, is returned as that code with the connection held, nothing dialled and one run |
| EppSafety.ConnectionAfterOperation | pkg/registrar/epp/connect.go:219-259 | the connection is gone exactly after a run without a server error failed on a network that does not admit the client again |
| EppSafety.OnlyReloginLeaks | pkg/registrar/epp/connect.go:80-81 | the only call that leaks a connection is a Login that connects while one is held, and no call closes a leaked one |
| EppSafety.DialSafe | pkg/registrar/epp/connect.go:66-102 | a dial ends with the new connection ready or closed and every other one as it was |
| Runner.CheckExpect | pkg/runner/runner.go:203-266 | the verdict on a step, for every combination of expectation, result and error |
| Runner.PassesIff | pkg/runner/runner.go:203-266 | a step passes without an expectation on no error or an EPP code from 1000 to 1999, and with one when its code and each of its fields are met |
| Runner.CapturedValueIff | pkg/runner/runner.go:124-129 | a value is captured for a step exactly when the last earlier step of that name to show an object showed it |
| Runner.ReferenceReaches | pkg/runner/runner.go:62-100 | a parameter that refers to what an earlier step showed reaches the registrar as the value shown |
| Runner.DanglingReferenceStays | pkg/runner/runner.go:62-100 | one that refers to what no step has shown reaches it as it stands |
| Runner.UnknownOperationFails | pkg/runner/runner.go:90-100 | a step with an unknown operation never passes |
| Runner.FindFieldIff | pkg/runner/runner.go:268-278 | with names distinct up to case, the lookup finds a field exactly when one matches, whatever the iteration order |
| Runner.EmptyExpectationPassesIff | pkg/runner/runner.go:203-266 | an empty expectation passes everything but a transport error, and nothing passes a transport error |
| Runner.ReportMeaning | pkg/runner/runner.go:56-151 | a run's step results are an in-order prefix of the scenario, all passed but possibly the last, and Passed holds exactly when every step ran and passed |
| Runner.CleanupMeaning | pkg/runner/runner.go:49-54 | cleanup's delete calls are, latest first and once each, what the passed steps registered, also after an early stop |
| Runner.RegistersIff | pkg/runner/runner.go:318-363 | an object is on the cleanup stack exactly when a passed step is a create that names it, by its result or else its parameter |
| Runner.TestRun.RunScenario | pkg/runner/runner.go:30-151 | one result is appended, and one cleanup closure whose stack holds what the run's passed steps registered |
| Runner.TestRun.RunStep | pkg/runner/runner.go:62-140 | verdict, captured values and registered deletion of one step, for any captured values before it |
| Runner.TestRun.RegisterCleanup | pkg/runner/runner.go:318-363 | the stack grows by the deletion the step registers, if any |
| Runner.TestRun.Cleanup | pkg/runner/runner.go:49-54 | the delete calls of all runs of a test are their stacks, all together, reversed |
| Runner.TestRun.DeleteStack | pkg/runner/runner.go:49-54 | one closure deletes its stack from the top down |
| Teardown.NoneRefusedIff | pkg/runner/runner.go:49-54 | against a registry with references no delete is refused exactly when every referrer of a doomed object is deleted before it |
| Teardown.ReverseOrderTearsDown | pkg/runner/runner.go:49-54 | when objects refer only to earlier ones, reverse order is never refused and removes exactly the registered objects |
| Teardown.CleanupRefusedIff | pkg/runner/runner.go:30-151 | after a run whose creates name fresh identities and refer to live objects, cleanup meets a referenced object exactly when the stopping step's create took effect and refers to something registered |
| Teardown.ScenarioTearsDown | pkg/runner/runner.go:30-151 | if such a run removed nothing and its stopping step did nothing, no delete is refused and the registry ends exactly as the run found it |
| Teardown.UnregisteredReferrerBlocks | pkg/runner/runner.go:93-132 | a concrete two-step scenario: a domain created against an expected refusal stays unregistered and its host cannot be deleted |
| WaitForPoll.ExecWaitForPoll | pkg/runner/runner.go:370-408 | outcome, queue and number of polls for every queue, clock and failure pattern, with acks refused or their answers lost; it terminates when each poll takes time |
| WaitForPoll.WaitSound | pkg/runner/runner.go:385-407 | whatever fails, only unwanted messages are dequeued, plus last the first wanted one when it is returned or the answer to its ack was lost; a refused ack leaves it at the head; a timeout means the clock ran out |
| WaitForPoll.FoundKind | pkg/runner/runner.go:395-404 | a wait for a kind returns a message of it and lets none of it go; without a kind it returns the first message |
| WaitForPoll.FoundIff | pkg/runner/runner.go:385-407 | with working reads and acks the wait succeeds exactly when some poll in time shows the first wanted message, and dequeues exactly up to it |
| WaitForPoll.HitUnique | pkg/runner/runner.go:385-407 | there is only one such poll |
| Reports.JUnitCounters | pkg/report/junit.go:58-127 | totals and per-suite counts of steps and failed steps, the totals being the sums of the suites |
| Reports.RunCounted | pkg/report/junit.go:58-111 | a passing run counts a test per step and no failure, a failing one exactly one failure |
| Reports.TextCounters | pkg/report/text.go:15-52 | passed and failed scenarios, adding up to all |
| Reports.ReportsAgree | pkg/report/junit.go:58-127 | over well-formed results JUnit failures equal the text report's failed scenarios |
| Reports.RunsReportedAlike | pkg/report/text.go:15-52 | so for any scenarios run against any registrars |

## Left out

- TLS, certificates, sockets, deadlines, sleeps and the delays between read and write: only success, failure and an abstract clock remain.
- XML marshalling and extension hooks: an exchange is a greeting's extension list, a result code, a response without result, garbage or a failure.
- The twenty near-identical EPP operations: one generic operation, `hello` and `PollRead` stand for them.
- A nil connection at an operation: the original panics; here the run ends there.
- The RRI client library, the per-registrar adapters and their constant errors.
- Configuration, YAML decoding, scenario loading failures, operation parameter decoding, MD5 and IDNA.
- `captureResult` through JSON: a result carries its printed fields.
- Unicode: case mapping and word characters are ASCII, and a string is a sequence of characters rather than UTF-8 bytes.
- The wording of errors, JSON and HTML reports, elapsed times and file writing.
- The `Received` capture channel, `DropConnection`, `SetDelay` and the mutexes of the in-process mocks: each shared access is one atomic step.
- Overflow of Go's counters (sequence numbers, STIDs, attempt counts): unbounded here; durations and frame lengths do wrap.
- `RunMatrix` and `RunDir`: loops over the modelled run.
- `wait_for_poll` inside a run: one more call the registrar answers there; `WaitForPoll` models it on its own.
- EppMockServer.HandleConn: a failed write is all or nothing per frame; `Framing.WriteFrame` has the partial write.
- Teardown.CleanupRefusedIff: steps create and remove objects; an update that makes an object refer to a later one is left to `NoneRefusedIff`, which holds for any registry.
- WaitForPoll.FoundIff: assumes working reads and acks; `WaitSound` covers every failure.
- Runner.FindFieldIff: names distinct up to case, since otherwise the original's answer depends on map iteration order.
