# Reflector, verified

Reflector is an HTTP echo server that stands in for backends behind a load balancer. This project
models the parts of it that have something hard to get right, and proves what they promise.

- **WebSocket echo** (`Bytes`, `WsGrammar`, `WsCodec`, `WsWire`, `WsConn`, `WsSession`, `WsTrace`). The framing
  grammar of section 5.2 of RFC 6455, the frame reader and writer over a buffered connection that
  delivers arbitrary chunks and stops taking bytes at an arbitrary point, the session loop, and what
  a client sees of whole sessions.
- **Route precedence** (`Paths`, `Resolution`, `Precedence`, `LastWinsRule`, `Conflicts`). Path
  normalisation, the two-phase replace-or-append resolution of user routes and presets, and the exact
  conditions under which its result is last-wins, free of overlaps, and stable.
- **Hot reload** (`Loader`, `HotReload`, `ReloadSafety`, `Freshness`, `LatestTable`, `WatchLoop`). The
  all-or-nothing build of the route table, and the protocol around it as interleaved steps: file edits,
  the event queue, the debounce timer and its callbacks, the one-slot channel, reloads of the watch loop
  and of administrators reading the directory file by file, the swapped table, and requests; what every
  interleaving keeps, exactly when the system comes to rest on the latest files, and the watch loop as a
  program that goes through exactly the protocol's runs.
- **Overrides** (`Decimal`, `Overrides`). A handler as a trace of calls on its response writer, written
  directly or recorded and replayed, and what net/http delivers of either.
- **Capture and streaming** (`Capture`, `Streaming`). The bounded request buffer over its growing array,
  the body peek and replay, exact-size payloads and the paced drip.

Code that changes state is modelled by classes and methods with loops; each such method is proved
against a function of its inputs, and the lemmas are about that function. Bytes are 8-bit vectors, and
the header bits and the masking are computed on them.

## Where the code and its documentation part

- `Resolve`'s comment says that a later route replaces the earlier ones it overlaps. The code stops at
  the first overlap, so any-method and specific-method routes at one path can leave two entries that
  overlap, or two in one slot (`Conflicts.MixedRoutesCanOverlap`). The model follows the code;
  `LastWinsRule.ResolvedIsLastWinsIff` and `Conflicts.ResolvedNonOverlappingIff` say exactly when the
  comment is right. For the same reason "later files win" of PLAN.md line 91 holds for lists that do
  not mix the two kinds of route at one path.
- The override comment promises to replace the response status with any `_status`. `overrideInt` lets
  every integer through, and a response can only have a final status
  (`Overrides.StatusOverrideTakenIff`).
- It also promises to replace the body. With a status that has no body, as 204 and 304, the body and its
  Content-Length are lost (`Overrides.OverridingBodyShownIff`); and the rest of the response stays as it
  was exactly under the conditions of `Overrides.BufferingFaithfulIff` and
  `Overrides.OverridesReplaceTheirPartIff`.
- PLAN.md line 135 has `--watch` hot-reload the route files. A reload that an administrator started
  before a change may store its older table last (`LatestTable.SlowAdminReloadCanWin`);
  `LatestTable.EndsOnLatestIff` says exactly when that cannot happen.
- Section 5.2 of RFC 6455 has senders use the shortest length form. The reader takes longer ones
  (`WsGrammar.Acceptable`); the writer always uses the shortest.

## Assumptions

- The connection accepts some number of bytes and then fails for good; a stream ends in the same way
  for the session whether it was closed or reset. `bufio.Writer` has its 4096-byte buffer.
- The response writer is that of net/http for a request other than HEAD over HTTP/1.1. It keeps the first
  final status and the headers set by then, answers 200 when a body comes first, sends other 1xx statuses
  aside, and aborts the handler on a status outside 100-999. A response with status 101, 204 or 304 has no
  body, and the handler's Content-Length and Transfer-Encoding are not sent with it, nor its Content-Type
  with 304; a write that exceeds the declared Content-Length is refused; a Content-Length that is no
  length is not sent. Header names are canonical, and headers the server adds itself are not modelled.
- `append` on a full slice copies to an array with any room to spare.
- Every change to a file of the watched directory queues one event. Listing the directory names each of
  its route files once, in an order that is a parameter. Reloads list at one instant and read each file
  at another, so a reload may read a mix of old and new files.
- Parsing a route file, registering routes on a mux and matching a request are parameters.
- Route methods are ASCII, so case folding is that of ASCII.

## Model

| member | source | states |
|---|---|---|
| WsCodec.DecodeIff | internal/httpserver/websocket.go:165-218 | the frame reader succeeds with a frame and a remainder exactly when the stream is a masked encoding of that frame under some key and admissible length form, payload at most 2^20, control frames final and short, followed by exactly that remainder |
| WsCodec.DecisionStable | internal/httpserver/websocket.go:165-218 | bytes appended to a stream never change a frame or a protocol error already decided, and a decided frame leaves the appended bytes in its remainder |
| WsCodec.ProperPrefixUndecided | internal/httpserver/websocket.go:165-218 | no proper prefix of an accepted frame is decided either way |
| WsCodec.ViolationIffDoomed | internal/httpserver/websocket.go:170-202 | with the header in, a protocol error is reported exactly when no continuation whatever would make an acceptable frame |
| WsCodec.EncodeRoundTrip | internal/httpserver/websocket.go:222-251 | a strict client reads back every frame the writer emits, for every 4-bit opcode, FIN bit and payload below 2^63, leaving what follows, and no other length form is shorter |
| WsCodec.EncodeUnmasked | internal/httpserver/websocket.go:220-251 | emitted frames are unmasked with reserved bits zero |
| WsCodec.EchoShrinks | internal/httpserver/websocket.go:209-251 | an echoed frame takes at least four bytes less than it came in, and an accepted one at least six came in |
| WsCodec.ClientReadNeedsAll | internal/httpserver/websocket_test.go:116-149 | a client reads nothing from a server frame that is cut short |
| WsWire.ReadsByBytes | internal/httpserver/websocket.go:165-218 | exactly when the bytes of a stream yield a frame, and byte by byte which: FIN and opcode bits, the big-endian length, and every payload byte XORed with its byte of the key |
| WsWire.RefusesByBytes | internal/httpserver/websocket.go:170-202 | exactly when they are refused: reserved bits, a fragmented or long control frame, a length over 2^20, no mask |
| WsWire.WritesByBytes | internal/httpserver/websocket.go:222-251 | byte by byte what is written: FIN and opcode, the length in 1, 3 or 9 bytes with thresholds 125 and 65535, most significant byte first, and the payload |
| WsConn.ChunkReader.ReadFull | internal/httpserver/websocket.go:166-212 | a full read depends only on the bytes still to come, not on the chunks they come in, and fails exactly when there are too few |
| WsConn.ConnWriter.Write | internal/httpserver/websocket.go:242-249 | what is on the wire is always what the connection had room for of everything written |
| WsSession.Unmask | internal/httpserver/websocket.go:213-215 | the in-place loop is the masking transform |
| WsSession.ReadFrame | internal/httpserver/websocket.go:165-218 | the reading method returns the outcome the decoder gives for the bytes of the stream and leaves its remainder |
| WsSession.WriteFrame | internal/httpserver/websocket.go:222-251 | writes and flushes exactly the encoding of the frame, or a part of it when the connection fails |
| WsSession.WriteClose | internal/httpserver/websocket.go:253-260 | the close frame of a code and a reason |
| WsSession.Respond | internal/httpserver/websocket.go:102-123 | the switch sends exactly the answer to one frame and ends the session on terminal frames |
| WsSession.HandleFrames | internal/httpserver/websocket.go:88-124 | for every input, chunking and point of failure, the wire holds the first bytes, as many as there was room for, of the banner followed by the reply |
| WsTrace.SessionTrace | internal/httpserver/websocket.go:93-124 | the data frames sent are the data frames received before the terminal event, in order and unchanged; pongs answer pings in order; a close frame is sent exactly when the session did not simply lose its stream, once and last |
| WsTrace.ReplySplits | internal/httpserver/websocket.go:93-124 | the reply is the answers to what was received, in order, and then the farewell of the ending |
| WsTrace.AnswerByOpcode | internal/httpserver/websocket.go:102-123 | opcodes 0, 1 and 2 are echoed, 9 is answered by 10 with its payload, 10 by nothing, and the session goes on; after 8, whose code comes back, and every other opcode, refused with 1002 and "unsupported opcode", it ends |
| WsTrace.FarewellByEnding | internal/httpserver/websocket.go:95-122 | the last frame for every ending: the client's close code, a refusal with 1002 and its reason character by character, or nothing |
| WsTrace.CloseCodeEchoed | internal/httpserver/websocket.go:113-119 | a close code comes back byte for byte, 1000 when there was none |
| WsTrace.SentFramesLegal | internal/httpserver/websocket.go:88-124 | every control frame a session sends is final with at most 125 bytes, every opcode has four bits |
| WsTrace.ReceivesWhatIsSent | internal/httpserver/websocket.go:93-112 | any non-terminal frames, under any keys and length forms and followed by anything, are received as sent |
| WsTrace.InputSplits | internal/httpserver/websocket.go:93-124 | every input is the encodings of what was received and then a rest that ends the session |
| WsTrace.ReplyGrows | internal/httpserver/websocket.go:93-100 | an input that ends early gets a prefix of the reply |
| WsTrace.SessionSeenByClient | internal/httpserver/websocket.go:88-124 | over any input and any point of failure the client reads a prefix of the banner and the reply, and all of it if nothing was cut |
| WsTrace.ReplySizeBounded | internal/httpserver/websocket.go:93-124 | the answers are at least four bytes per frame smaller than the encodings of the frames received, without the tail that ends the session; each of those costs six bytes of input; the farewell is at most 22 bytes |
| WsTrace.FragmentationPreserved | internal/httpserver/websocket.go:102-112 | the messages a client reassembles are the banner and then exactly the messages it sent, finished and open, and the sent sequence is legal exactly when the received one is |
| Paths.NormalizePath | internal/routes/route.go:70-78 | the in-place loop computes the normal path |
| Paths.JoinAfterSplit | internal/routes/route.go:71-77 | joining undoes splitting |
| Paths.SplitAfterJoin | internal/routes/route.go:71-77 | splitting undoes joining on segments without a slash |
| Paths.NormalPathSegments | internal/routes/route.go:70-78 | normalising a path normalises its segments one for one, so their number stays |
| Paths.NormalPathIs | internal/routes/route.go:70-78 | each segment of the normal path is "{}" where the path has a name in braces, and the path's own segment elsewhere |
| Paths.RenamedParameter | internal/routes/route.go:68-78 | renaming a parameter anywhere in a path leaves its normal path as it is |
| Paths.NormalPathIdempotent | internal/routes/route.go:70-78 | normalising twice changes nothing more |
| Paths.NormalPathIff | internal/routes/route.go:68-78 | two paths normalise alike exactly when their segments agree pairwise up to both being a name in braces |
| Paths.EqualFoldUpper | internal/routes/load.go:107-109 | on methods as compiled, folded comparison is equality |
| Paths.EqualFoldIff | internal/routes/route.go:85-90 | methods compare equal exactly when they agree character by character up to the case of letters |
| Paths.UpperIs | internal/routes/load.go:107-109 | a method as compiled has no small letter and differs only in case |
| Resolution.OverlapsIff | internal/routes/route.go:80-90 | two routes overlap exactly when their normal paths are equal and one has no method or both have the same up to case |
| Resolution.RenamedOverlap | internal/routes/route.go:80-90 | routes whose paths differ in a parameter's name overlap like routes at one path |
| Resolution.Resolve | internal/routes/load.go:157-197 | the nested loops leave the user layer and then the layer of the presets that overlap nothing in it |
| Precedence.UserRoutesUntouched | internal/routes/load.go:161-196 | the result is the user routes resolved alone, then the non-overlapping presets resolved alone; nothing in the second part overlaps the first |
| Precedence.PathsConserved | internal/routes/load.go:157-197 | resolution keeps exactly the normalised paths of its inputs |
| Precedence.NewestSurvives | internal/routes/load.go:161-175 | the newest route is always in the result |
| Precedence.LayerFixedIff | internal/routes/load.go:161-175 | resolving a list changes nothing exactly when no two of its routes overlap |
| LastWinsRule.LayerIsLastWinsIff | internal/routes/load.go:152-175 | one list resolves to the last route of each slot in order of first appearance, without overlaps, exactly when it does not mix any-method and specific-method routes at a path |
| LastWinsRule.ResolvedIsLastWinsIff | internal/routes/load.go:157-197 | the same for users followed by the presets overlapping no user route: it holds exactly when neither the user list nor those presets mix |
| LastWinsRule.UnmixedResolves | internal/routes/load.go:157-197 | if neither list mixes, the result is last-wins in both parts, free of overlaps, and unchanged when resolved again |
| Conflicts.LayerNonOverlappingIff | internal/routes/load.go:161-175 | one list resolves without overlaps exactly when no trailing route shares its slot with the leader of its path's last run, and no path with trailing routes ends on an any-method one |
| Conflicts.ShadowedIff | internal/routes/load.go:177-196 | a preset overlaps a surviving user route exactly when the user list has a route at its path and the preset or the end of that path's routes takes any method, or the last run's leader or a trailing route has its slot |
| Conflicts.ResolvedNonOverlappingIff | internal/routes/load.go:157-197 | the whole result is free of overlaps, and resolving it again changes nothing, exactly when the user list and the presets it does not shadow, both taken from the inputs alone, are clean in that sense |
| Conflicts.UnmixedIsClean | internal/routes/load.go:157-197 | not mixing the two kinds of route at one path is enough for that |
| Conflicts.MixedRoutesCanOverlap | internal/routes/load.go:163-170 | GET, POST, any at one path resolve to two overlapping routes; another POST makes two entries in one slot |
| Loader.LoadRoutes | cmd/reflector/loadroutes.go:30-55 | the loops collect the routes and errors of routes.d and of every preset and resolve them |
| Loader.BuildUserMux | cmd/reflector/loadroutes.go:57-74 | the build of the files read, and its count |
| Loader.AllOrNothing | cmd/reflector/loadroutes.go:57-74 | a table is built exactly when every file and preset loads without an error and the resolved routes register; it is the whole resolved list, and no mux exactly when there are no routes |
| Loader.DirRoutes | internal/routes/load.go:20-80 | the routes loaded are those of the files in listing order, each file's in its own order and marked with its name |
| Loader.PresetRoutes | cmd/reflector/loadroutes.go:35-51 | the preset routes are those of the packs in the order asked for, marked as the preset's |
| HotReload.RouteFileIff | cmd/reflector/watch.go:84-91 | route files are those named .yaml or .yml |
| ReloadSafety.TablesAreComplete | cmd/reflector/serve.go:88-95 | in every interleaving each table ever active is the startup table or the complete build of files that one reload listed at some moment of the run and then read, one by one and later, with the content each then had on disk |
| ReloadSafety.SoundStep | internal/httpserver/server.go:148-171 | every step keeps that, and that a request that has loaded a table is matched and answered by that table alone |
| ReloadSafety.ServedByArrivalTable | internal/httpserver/server.go:148-171 | every request served in a run is served from the table active when it arrived, by the user's route where it matches and else the built-in one, the other way round with strict built-ins, and not at all where neither matches |
| HotReload.DebounceSteps | cmd/reflector/watch.go:52-66 | every event of a file named .yaml or .yml, and no other, leaves the timer running; each time it runs out one callback starts, which leaves the channel holding its token |
| Freshness.SnapshotIs | internal/routes/load.go:20-50 | what an undisturbed reload reads is every file on disk whose name ends in .yaml or .yml with its content, once each, and nothing else |
| Freshness.NoChangeLost | cmd/reflector/watch.go:40-81 | in every reachable state, unless something will still make the loop read, what it is reading or last read is what is on disk |
| Freshness.ChangePending | cmd/reflector/watch.go:48-68 | from any state, after a route-file change, one later undone included, an event, the timer, its callback, the token or a reload that has not read stays pending until the loop lists the directory |
| Freshness.ReloadsBoundedByEvents | cmd/reflector/watch.go:48-73 | watch reloads started, plus token, callbacks and armed timer, never outnumber the route-file events taken |
| Freshness.LeftDecreases | cmd/reflector/watch.go:43-81 | every step of the loop uses up part of a bound on the steps left |
| Freshness.ComesToRest | cmd/reflector/watch.go:40-81 | once changes stop the loop takes no more steps than that bound, whatever requests and administrators do, and rests having attempted the files as they are |
| LatestTable.EndsOnLatestIff | cmd/reflector/serve.go:88-95 | from any reachable state whose files build, every way to quiescence without another route-file change leaves exactly their table active if and only if each administrator's reload that has listed will fail or build the same, and the table is right already if the loop has nothing to do |
| LatestTable.LatestAfterLastEdit | cmd/reflector/watch.go:40-81 | over a whole run: if no administrator's reload had listed the directory at the last change of a route file, the system is quiescent only with what the files build active, if they build, however many administrators' reloads came later |
| LatestTable.StaleReloadCanWin | cmd/reflector/serve.go:88-95 | from any state with an administrator's reload that has listed and will build, some schedule comes to rest on its table |
| LatestTable.SlowAdminReloadCanWin | cmd/reflector/serve.go:88-95 | a run from startup that rests on the build of an old file while the file on disk builds a different table |
| WatchLoop.Reload | cmd/reflector/serve.go:88-95 | the closure stores on success and keeps the table on failure, and returns the number of routes built, 0 on failure |
| WatchLoop.WatchRoutes | cmd/reflector/watch.go:43-81 | the select loop and its reloads, under any schedule of edits, timers, administrators and requests that interleave with every read, go through exactly the states of the protocol |
| WatchLoop.PlayedIsRun | cmd/reflector/watch.go:43-81 | whatever the schedule, those states are a run of the protocol that ends between reloads |
| WatchLoop.RunIsPlayed | cmd/reflector/watch.go:43-81 | every run of the protocol that ends between reloads is what the loop does under some schedule |
| WatchLoop.CancelEnds | cmd/reflector/watch.go:43-46 | a cancelled context ends the loop at its next select, whatever else is ready |
| WatchLoop.WatchFromStartup | cmd/reflector/watch.go:23-82 | when the loop ends, unless something is pending it has last attempted the files on disk, it has not reloaded more often than route files changed, and the table requests load is the startup table or the complete build of files read off the disk |
| Overrides.CopyHeaders | internal/httpserver/overrides.go:81-83 | the copied headers are the same in whatever order the map gives its keys |
| Overrides.ServeOverridden | internal/httpserver/overrides.go:66-118 | the method, reading its overrides from query and headers, responds as the override function says |
| Overrides.OverridesRead | internal/httpserver/overrides.go:66-118 | the overrides are the query parameters `_status` and `_body` when present, numeral or not, else the headers X-Reflector-Status and X-Reflector-Body |
| Overrides.BufferingFaithfulIff | internal/httpserver/overrides.go:78-94 | for every handler whose statuses are final, the client gets what the handler would have got it by asking for the overriding parts itself exactly when, without a status override, the last status is the one decided first; headers set after that decision repeat the values in force as far as they are shown; and, without a body override, the declared length covers all writes or not even the first |
| Overrides.OverridesReplaceTheirPartIff | internal/httpserver/overrides.go:66-95 | for every orderly handler that writes no more than it declares, overrides replace exactly their part of the direct response if and only if the overriding body's status allows it, otherwise both statuses agree on sending the body, and both suppress the same headers; always when both allow a body |
| Overrides.OverridingBodyShownIff | internal/httpserver/overrides.go:84-94 | an overriding body and its Content-Length reach the client exactly when the status that goes out allows a body |
| Overrides.DeliveredInFullIff | internal/httpserver/overrides.go:93-94 | what is written is delivered in full exactly when the status allows a body and the declared length covers it |
| Overrides.StatusOverrideTakenIff | internal/httpserver/overrides.go:89-93 | whatever the handler does, a status override becomes the status exactly when it is one a final response can have |
| Overrides.TwoStatusesDiffer | internal/httpserver/overrides.go:24-28 | a handler that writes two different statuses is one whose buffered response is not the one it asked for |
| Decimal.AtoiItoa | internal/httpserver/overrides.go:87-113 | a length written out reads back as itself |
| Decimal.ItoaIs | internal/httpserver/overrides.go:87 | a numeral is written digit by digit, most significant first |
| Decimal.AtoiSigned | internal/httpserver/overrides.go:113 | a numeral with or without a sign reads as its value exactly when that fits in 64 bits |
| Decimal.AtoiIff | internal/httpserver/overrides.go:113 | nothing but a numeral behind an optional sign is read |
| Capture.Buffer.Add | internal/capture/capture.go:49-57 | appending to the slice, in place or into a grown copy, and reslicing leaves the last max entries since the last clear |
| Capture.Buffer.All | internal/capture/capture.go:59-66 | a snapshot is an array of its own holding the newest entries, at most max, oldest first |
| Capture.LastNIs | internal/capture/capture.go:54-56 | what the buffer keeps of a history are its newest entries, in their order, as many as fit |
| Capture.RunBuffer | internal/capture/capture.go:33-73 | from any state, over any run of additions and clears, entry i is the i-th of the newest entries added since the last clear, at most max; and a snapshot taken anywhere in the run still holds at its end what the buffer held then |
| Capture.ReadPieces | internal/capture/capture.go:90-96 | reads of any sizes deliver the body and leave its rest |
| Capture.Peek | internal/capture/capture.go:82-110 | the middleware stores the first 2^20 bytes, flagged exactly when there are more, and hands on a body with every byte |
| Capture.CaptureThenEcho | internal/envelope/envelope.go:64-87 | the body the envelope echoes is the body captured |
| Streaming.PiecesCount | internal/httpserver/synthetic.go:99-114 | a payload goes out in ceil(n / size) pieces, none over the size, only the last under it |
| Streaming.ContentBytes | internal/httpserver/synthetic.go:25-70 | byte i of a body is byte i of the seeded stream, or zero without a seed |
| Streaming.PieceSize | internal/httpserver/synthetic.go:82-93 | the piece size is 32768 unless a smaller positive one is asked for |
| Streaming.WriteExactBytes | internal/httpserver/synthetic.go:136-151 | the client gets exactly n bytes in chunks within the limit, or the first of them when the connection fails |
| Streaming.StreamBytes | internal/httpserver/synthetic.go:99-120 | uninterrupted, exactly n bytes in exactly the pieces; it stops exactly at a failed write or after a piece at which the request is done |
| Streaming.Drip | internal/httpserver/drip.go:46-74 | uninterrupted, exactly numbytes zero bytes with the planned gaps between them; it stops short exactly at a failed write or a wait cut short |
| Streaming.DripTotal | internal/httpserver/drip.go:54-72 | without jitter the gaps add up to the duration less one interval and the remainder |
| Streaming.DripTotalJittered | internal/httpserver/drip.go:54-72 | with jitter j and interval q the gaps add up to between (n-1)q and (n-1)(q+j-1) |
| Streaming.GapIff | internal/httpserver/drip.go:66-69 | a gap is interval plus draw exactly short of 64-bit overflow, and negative past it |
| Streaming.ByteCountIff | internal/httpserver/synthetic.go:123-134 | a byte count can be asked for by its numeral exactly up to 2^30, and no negative one |
| Streaming.DripIntIff | internal/httpserver/drip.go:89-100 | a parameter is its default when left out, and else taken exactly within its bounds |

## Left out

- The HTTP upgrade of `/ws` (header tokens, accept key, hijacking) and its handshake bytes: the session starts once the connection is upgraded.
- `http.ServeMux` pattern matching and conflict detection, including whether a wildcard route shadows a protected path: a table is an abstract match, and building one succeeds or fails.
- Body files under `payloads/`: a route file's text stands for its routes, and changes to payloads are not watched by the program either.
- YAML, templates, delays, failures and authentication of a route: precedence reads only its path and method.
- Real time: timers expire and callbacks run at any moment; cancellation, watcher errors and shutdown are modelled only as the end of the watch loop.
- Edits between the startup build and the attachment of the watcher: the protocol starts with the watcher attached, whatever the disk then holds.
- The delay, connection and abort overrides, and handlers that delete headers: a trace only sets headers, writes statuses and writes bytes.
- Handlers that write a 1xx or invalid status: their two paths are compared only on the traces whose statuses are final.
- Timestamps, headers, query and client of a captured entry: copied fields without a rule of their own.
- Health, probes, cookies, inspection views, compression, TLS, TCP echo, configuration and the command line: single-branch or library code.
