# NurdViewer core, modelled in Dafny

NurdViewer streams a screen over WebRTC. A sender and a receiver meet in a
room of a small WebSocket signaling relay. They exchange an SDP offer and
answer through it. Each process can ship its log records to a central log
server over TCP. This project models three pieces of that system and
proves properties of them:

- `sdp_filter.dfy` (module `SdpFilter`) covers the receiver's SDP
  compatibility filter, `remove_rtx_from_sdp`. It splits the offer into
  lines as Python's `str.splitlines` does, drops every line that mentions
  `video/rtx` or `apt=`, and joins the rest with CRLF. The loop itself is
  the method `RemoveRtxFromSdp`. It is proved against the function
  `FilteredSdp`, and the properties are proved about that function.
- `offer_answer.dfy` (module `Receiver`) covers what the receiver's `run`
  does with the first message from the relay. It parses the JSON, insists
  on `type == "offer"`, installs the filtered offer as the remote
  description and sends one answer message. `json.loads` appears only
  through its result. The peer connection's `setRemoteDescription`,
  `createAnswer` and `setLocalDescription` are opaque parameters.
- `signaling.dfy` (module `Signaling`) covers the relay's room table
  `ROOMS` and its per-connection `handler`. The room id comes from the
  path. The class `Relay` holds the table and each running handler's
  room. Its methods are the handler's steps: join, relay one message,
  leave. A ghost history of joins and leaves ties the table to a
  declarative account of who is in which room.
- `log_framing.dfy` (module `LogFraming`) covers the central log server's
  stream decoder, `LogRecordStreamHandler.handle`. Each frame is a 4-byte
  big-endian length followed by that many bytes of pickled record. The
  handler loop is the method `Handle`, proved equal to the recursive
  decoder `Decode`. The round trip and a full account of which records a
  stream yields are proved about `Decode`.

The connection's bytes, the first inbound message, the sequence of
messages a handler receives and, for each message, the set of peers
whose `send` fails are parameters. `pickle.loads` is an opaque predicate.

Three behaviours of the code matter here:

- empty rooms are never removed from `ROOMS`;
- a failing `send` ends the sender's handler instead of skipping that peer;
- the SDP filter is idempotent when at most one line is kept or the last
  kept line is non-empty, and not otherwise.

## Model

| member | source | states |
|---|---|---|
| SdpFilter.FirstBoundary | receiver.py:19 | the index of the first `splitlines` boundary character, or the length when there is none; nothing before it is a boundary |
| SdpFilter.SplitLines | receiver.py:19 | `splitlines` yields lines that contain no boundary, and yields no lines exactly for the empty string |
| SdpFilter.Join | receiver.py:26 | the CRLF join starts with its first line |
| SdpFilter.JoinEndsWithLast | receiver.py:26 | the CRLF join ends with its last line |
| SdpFilter.Retained | receiver.py:21-25 | the kept lines are at most as many as the input lines; each mentions neither `video/rtx` nor `apt=` and is one of the input lines |
| SdpFilter.FilteredSdp | receiver.py:17-28 | the filtered SDP contains neither `video/rtx` nor `apt=` anywhere in its text, not just on each kept line |
| SdpFilter.RemoveRtxFromSdp | receiver.py:17-28 | the loop returns the CRLF join of the retained lines, and its result contains neither pattern anywhere |
| SdpFilter.RetainedAppend | receiver.py:21-25 | filtering distributes over concatenation, so kept lines keep their order |
| SdpFilter.RetainedSingle | receiver.py:22-25 | one line is kept if and only if it mentions neither pattern |
| SdpFilter.CleanLinesSurvive | receiver.py:21-25 | every line mentioning neither pattern survives the filter |
| SdpFilter.RetainedClean | receiver.py:21-25 | a list with no matching line passes through unchanged |
| SdpFilter.NotAcrossCrlf | receiver.py:26 | a pattern free of CR and LF that is in neither part is not in their CRLF join |
| SdpFilter.JoinAvoids | receiver.py:26 | joining lines that avoid such a pattern with CRLF never creates it |
| SdpFilter.FilterWithoutRtx | receiver.py:17-28 | with no matching line, the output is the input's lines re-joined with CRLF |
| SdpFilter.FirstBoundaryOfLine | receiver.py:19 | a line without boundaries has its first boundary at its end |
| SdpFilter.FirstBoundaryAfterLine | receiver.py:19 | a boundary after a boundary-free line is found right after that line |
| SdpFilter.SplitJoin | receiver.py:19-26 | `splitlines` gives back lines that were CRLF-joined, if none has a boundary and the last is non-empty |
| SdpFilter.RetainedLinesHaveNoBoundary | receiver.py:19-25 | kept lines still contain no boundary |
| SdpFilter.FilterIdempotent | receiver.py:17-28 | filtering twice equals filtering once when at most one line is kept or the last kept line is non-empty |
| SdpFilter.RefilterJoin | receiver.py:19-26 | kept lines joined with CRLF pass through the filter unchanged when the last one is non-empty |
| SdpFilter.RefilterEmptyLine | receiver.py:19-26 | a single empty kept line joins to the empty text, which the filter leaves empty |
| SdpFilter.JoinEmptyLast | receiver.py:26 | joining lines whose last one is empty gives the join of the others followed by CRLF |
| SdpFilter.SplitAfterLine | receiver.py:19 | a boundary-free line then CRLF splits off as the first line, and the rest splits on its own |
| SdpFilter.SplitOneLineCrlf | receiver.py:19-26 | one boundary-free line followed by CRLF splits back into that line |
| SdpFilter.JoinCrlfCons | receiver.py:26 | the CRLF join of several lines followed by CRLF is the first line, CRLF, then the rest's join followed by CRLF |
| SdpFilter.SplitJoinCrlfStep | receiver.py:19-26 | if the tail's CRLF-terminated join splits back into the tail, the whole list's does too |
| SdpFilter.SplitJoinCrlf | receiver.py:19-26 | boundary-free lines joined with CRLF and terminated by CRLF split back into exactly those lines, empty last line included |
| SdpFilter.RefilterCrlf | receiver.py:17-28 | clean boundary-free lines joined and terminated by CRLF filter to their join without the final CRLF |
| SdpFilter.FilterNotIdempotent | receiver.py:17-28 | for every input whose kept lines number two or more and end with an empty line, filtering twice differs from filtering once, so the idempotence condition is exact |
| SdpFilter.FilterNotIdempotentOnEmptyLastLine | receiver.py:17-28 | with two kept lines, the last one empty, idempotence fails: "\n\n" filters to "\r\n", which filters to "" |
| Receiver.Lookup | receiver.py:42 | `data.get(key)` fails on a non-object, gives nothing for a missing key and the key's value otherwise |
| Receiver.Respond | receiver.py:34-62 | the session ends quietly exactly when the message is not JSON; it sends at most one message, which has the answer shape; anything installed came from an offer, has type "offer" and contains no retransmission text |
| Receiver.NotJsonEndsQuietly | receiver.py:36-40 | unparsable input installs nothing and sends nothing |
| Receiver.NonOfferSendsNothing | receiver.py:42-44 | a message that is not an offer installs and sends nothing; a JSON object with another `type` ends at the type check |
| Receiver.OfferIsAnswered | receiver.py:46-62 | a well-formed offer, whatever its other keys, installs exactly the filtered offer and sends exactly one answer carrying the local SDP |
| Receiver.AnswerOnlyForOffer | receiver.py:42-62 | an answer is sent only for an object whose `type` is "offer" and whose `sdp` is a string |
| Receiver.SenderOfferAccepted | sender.py:20 | the sender's own offer message is answered and installed in filtered form |
| Signaling.DropLeadingSlashes | signaling_server.py:12 | `lstrip("/")` leaves no leading '/' |
| Signaling.DropTrailingSlashes | signaling_server.py:12 | `rstrip("/")` leaves no trailing '/' |
| Signaling.FirstSlash | signaling_server.py:12 | the index of the first '/', or the length; nothing before it is a '/' |
| Signaling.SplitSlash | signaling_server.py:12 | `split("/")` gives at least one piece and no piece holds a '/' |
| Signaling.RoomId | signaling_server.py:12 | a room id never contains '/' |
| Signaling.SplitWithoutSlash | signaling_server.py:12 | a string without '/' splits into itself |
| Signaling.LastPieceAfterSlash | signaling_server.py:12 | the last piece of `u/r` is `r` when `r` has no '/' |
| Signaling.LastPieceAfterLeadingStrip | signaling_server.py:12 | stripping leading slashes keeps a non-empty last segment as the last piece |
| Signaling.TrailingStrip | signaling_server.py:12 | stripping trailing slashes removes exactly a run of '/' after a non-slash end |
| Signaling.RoomIdOfPath | signaling_server.py:12 | any path ending in `/<room>` followed by any number of '/' names `<room>` |
| Signaling.RoomIdExample | receiver.py:31 | a peer started with `--room testroom` connects to `/ws/testroom`, which names room `testroom` |
| Signaling.Members | signaling_server.py:14-17 | a room's member set, empty for a room not in the table |
| Signaling.Apply | signaling_server.py:14-17 | one join or leave leaves the table's rooms as before plus the room touched, so no room is deleted |
| Signaling.Replay | signaling_server.py:14-30 | the table after a history of joins and leaves holds every room any of them touched |
| Signaling.ReplayStep | signaling_server.py:14-30 | one more event updates the replayed table by exactly that event |
| Signaling.LiveStep | signaling_server.py:14-30 | one more join adds the connection to that room's live set; a leave removes it; other rooms are unaffected |
| Signaling.ReplayIsLive | signaling_server.py:9-30 | after any history, a room's member set is exactly the connections that joined it and have not left it since |
| Signaling.ReplayKeys | signaling_server.py:14-15 | the table holds exactly the rooms ever joined or left, empty ones included |
| Signaling.JoinKeepsConsistent | signaling_server.py:14-17 | a new connection joining a room keeps every running handler listed in its own room and only there |
| Signaling.LeaveKeepsConsistent | signaling_server.py:29-30 | a handler leaving its room keeps that agreement |
| Signaling.JoinThenLeave | signaling_server.py:14-30 | a join followed by the same connection's leave gives the table back except that the room now exists, and logs both events |
| Signaling.RelayedPrefixStep | signaling_server.py:20-28 | a block relaying the next message, read while no send had failed, extends the per-message account by one block |
| Signaling.FlattenSnoc | signaling_server.py:20-25 | the sends so far followed by one more message's sends are the concatenation of the blocks |
| Signaling.NoFailureStep | signaling_server.py:20-28 | no send failed up to message `i + 1` exactly when none failed before `i` and none fails for message `i` |
| Signaling.RecipientsSnoc | signaling_server.py:23-25 | with distinct recipients, the last delivery adds a recipient not reached before |
| Signaling.DistinctRecipients | signaling_server.py:23-25 | deliveries to distinct peers reach as many peers as there are deliveries |
| Signaling.FlattenUniform | signaling_server.py:20-25 | blocks of equal size `n` concatenate to `n` sends per block |
| Signaling.RelayedWithoutFailure | signaling_server.py:20-25 | when no send fails, every inbound message is read and sent exactly once to each other member, in order: `|inbound|` blocks, each reaching all others, `|inbound| * |others|` sends in all |
| Signaling.RelayedStopsAtFailure | signaling_server.py:20-28 | when message `f` is the first with a failing send, exactly `f + 1` messages are read, and the sends are those of the first `f` blocks then message `f`'s own; nothing later is sent |
| Signaling.Relay.constructor | signaling_server.py:9 | the table starts empty, with no handlers and an empty history |
| Signaling.Relay.Connect | signaling_server.py:12-17 | the connection is added to the room its path names, creating the room if absent; nothing else changes |
| Signaling.Relay.Broadcast | signaling_server.py:23-25 | the message goes unchanged to distinct members of the sender's room, never to the sender; every other member receives it if and only if no send fails |
| Signaling.Relay.Disconnect | signaling_server.py:29-30 | the connection is removed from its room and the room stays in the table |
| Signaling.Relay.Receive | signaling_server.py:20-28 | one relayed message goes at most once to each other member, only to those whose send succeeds; `ok` holds exactly when no send fails, and then every other member receives it and the table is unchanged; otherwise the sender leaves its room |
| Signaling.Relay.RelayAll | signaling_server.py:19-28 | the sends are one block per message read, in inbound order; each block carries its own message once to distinct other members, all of them when no send failed; reading stops right after the first message with a failing send; the handler is still live exactly when no send failed, and after a failure the connection has left its room |
| Signaling.Relay.RelayThenLeave | signaling_server.py:19-30 | however relaying ends, the connection leaves its room exactly once, with the same per-message blocks as the relay loop |
| Signaling.Relay.Serve | signaling_server.py:11-30 | a whole handler run leaves every room as it was, except that its room now exists; the history records one join and one leave; the sends are the per-message blocks of the relay loop over the members present on joining |
| LogFraming.BigEndian32 | central_log_server.py:16 | an unpacked `>L` length is below 2^32 |
| LogFraming.LengthPrefix | central_log_server.py:16 | packing a length gives 4 bytes that unpack to that length |
| LogFraming.LengthPrefixOfBigEndian32 | central_log_server.py:16 | every 4 bytes are the packing of the length they unpack to |
| LogFraming.Frame | central_log_server.py:13-18 | a client's frame is 4 prefix bytes that unpack to the payload's length, then the payload |
| LogFraming.Encode | central_log_server.py:10-23 | the stream a client writes is empty exactly when it sends no record, and starts with the first record's frame |
| LogFraming.NextFrame | central_log_server.py:13-20 | the head of a stream is fewer than 4 bytes, a prefix with a short payload, or a prefix and exactly the payload it announces |
| LogFraming.Decode | central_log_server.py:10-23 | every record handed on is framable and unpickles |
| LogFraming.Recv | central_log_server.py:13-20 | `recv(n)` returns the next `n` bytes, or all that remain |
| LogFraming.ReadPayload | central_log_server.py:18-20 | the payload read returns the next bytes; it has all `n` exactly when the stream holds them, otherwise everything up to the end |
| LogFraming.PayloadLoopStalls | central_log_server.py:19-20 | once the stream is exhausted short of `n` bytes, the next `recv` adds nothing, so the loop as written spins |
| LogFraming.ReadFrame | central_log_server.py:13-20 | one pass of the reads yields exactly the frame at the read position |
| LogFraming.HandOnFrame | central_log_server.py:21-23 | handing on a complete frame's payload extends the records so far and continues decoding right after the frame |
| LogFraming.Handle | central_log_server.py:10-23 | the handler loop hands on exactly the records `Decode` gives, in order, and stops for the same reason |
| LogFraming.DecodeOneFrame | central_log_server.py:13-23 | a complete frame whose payload unpickles yields that payload, then decoding continues after it |
| LogFraming.DecodeAfterFrames | central_log_server.py:10-23 | complete frames at the head yield their payloads in order, followed by whatever the rest yields |
| LogFraming.DecodeEncode | central_log_server.py:10-23 | decoding the frames a client writes gives back exactly its payloads and ends cleanly with nothing left |
| LogFraming.DecodeShortTail | central_log_server.py:13-15 | fewer than 4 trailing bytes end the stream cleanly and are dropped |
| LogFraming.DecodeCutOffPayload | central_log_server.py:16-20 | a payload cut off by the end of the stream is never handed on; the frames before it are |
| LogFraming.DecodeCut | central_log_server.py:16-20 | a prefix followed by fewer payload bytes than it announces yields no record, only the truncation |
| LogFraming.DecodeConsumesFrames | central_log_server.py:10-23 | for any stream, the records are the payloads of the complete frames at its head, in order, and the stop reason describes the frame after them |
| LogFraming.FramedHead | central_log_server.py:13-20 | one frame in front of encoded records re-encodes as a prefix of the stream |

## Left out

- Concurrency: the relay's handlers and the log server's threads interleave only between whole steps here. The model does not include the `RuntimeError` Python raises when another handler changes a room's set while `Broadcast`'s loop waits in `await peer.send`.
- Signaling.Relay.Broadcast: iterates the room's set in an arbitrary order, because Python's set order is not part of the program's meaning. A failure is modelled as membership of the peer in the set of peers whose `send` fails for that message, not as a real network error.
- LogFraming.Recv: returns min(n, remaining) bytes. A real TCP `recv` can return fewer. A short read of the 4-byte prefix would end the session in the source, and that case is not modelled.
- LogFraming.Decode: reports a payload cut off by the end of the stream as `Truncated` and stops. The source spins in its payload loop instead; see `PayloadLoopStalls` and the finding below.
- Receiver.Respond: `json.loads`, `json.dumps`, the aiortc peer connection and the WebSocket are opaque. A failing `setRemoteDescription`, `createAnswer` or `setLocalDescription` is one of two opaque parameters. The JSON text of the answer message is not modelled, only its object.
- `logging.makeLogRecord`, the central logger's handlers and the `central.log` file: the model hands on the payload instead of the record built from it.
- Logging calls, the receiver's `on_track` and `iceconnectionstatechange` callbacks, and the sender's and receiver's process set-up: side effects with no bearing on the modelled state.
- The server start-up code (`main`, `websockets.serve`, `ThreadingTCPServer`, `allow_reuse_address`) is not modelled. So are log_config.py, screen_track.py and video_consumer.py.
- The code has no connection state machine and no renegotiation guard, and it never deletes an empty room, so none of these is modelled.

## Findings

| source | as written | input that shows it | evidently intended | confidence | as-written member | corrected member |
|---|---|---|---|---|---|---|
| central_log_server.py:18-20 | the payload loop calls `recv` until `slen` bytes arrive, and never checks for an empty read | a client that sends a prefix announcing 10 bytes, sends 3 and closes: every later `recv` returns nothing and the handler loops forever | stop reading when the stream ends, and do not hand on the partial record | medium, not executed | LogFraming.PayloadLoopStalls | LogFraming.ReadPayload |
