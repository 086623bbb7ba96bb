# grpc-webnext in Dafny

A Dafny model of the protocol core of grpc-webnext: the gateway and client that carry gRPC over WebSockets, Fetch and an
HTTP/2-in-WebSocket tunnel. The model follows the code; where the code falls short of what its comments promise, a lemma
gives the input and another says exactly when the promise does hold.

## What is here

**Single-stream WebSocket protocol** (`WsFrames`, `WsServer`, `WsServerProofs`, `WsServerTheorems`, `WsServerSteps`,
`WsClient`, `WsSystem`). The server is a step system: reader loop, stream task, outbound FIFO, writer, deadline, drain.
Every `await` at which another party can act ends a step, so every interleaving is an execution of the model. Timers,
capacity and library failures are steps that may happen whenever the code allows them. The client is the class
`SingleStreamConn`, proved handler by handler against functions, and `WsSystem` composes the two over a FIFO socket in
each direction. The theorems hold in every state of every execution.

**Length-prefixed framing** (`LengthPrefixed`, `Deframers`, `FetchBody`). One pure parse of a byte stream, by offset;
three incremental deframers and the byte-at-a-time size limiter refine it for every chunking. The zero-copy unary path is
proved against the buffered encoding, including what a deadline cut leaves behind.

**HttpRule** (`HttpTemplate`, `HttpTemplateProofs`, `HttpMatch`, `HttpMatchProofs`, `HttpPaths`, `HttpMessage`,
`HttpMessageProofs`). The template compiler, the matcher against a declarative language (a `Fill` is a derivation of a
component list), percent-decoding, and the overlay of path and query onto the body message.

**Reflection** (`FileOrder`, `FileSet`, `ReflectionFetch`). The dependency-chasing walk, the depth-first ordering and the
varint framing of the descriptor set, with its reader.

**Client streams and retries** (`ReadableStream`, `H2tsReader`, `Throttle`, `Retry`, `SharedThrottle`). The readable
stream as a class, its composition with the awaiting h2ts read loop under every schedule, the token bucket over reals,
whole unary and server-streaming calls over arbitrary attempt scripts, and any number of calls sharing one bucket.

**Channel and drain** (`Channel`, `Drain`). Tunnel caching with its connectivity log, and the Go drain counter.

## What the proofs turned up

- A text-codec request message that is JSON null is read by the server as a half-close, which ends the request
  (`WsSystem.NullEndsRequest`); everything the user meant arrives exactly when no message is null
  (`WsSystem.IntendedIff`).
- A cut unary response is rejected by both decoders as long as the upstream sent at most one frame. With a second frame
  its header is read as the trailer's length, and the cut body is accepted exactly when it reaches far enough into that
  frame and what it holds there decodes as a trailer (`FetchBody.CutAcceptedIff`, `FetchBody.CutMisread`).
- The matcher decides a template's language exactly when nothing but `**` follows a `**`; any other template matches no
  path at all, though its language is not empty (`HttpMatchProofs.DecidesIff`).
- A path variable loses to a query parameter that names the same field by its other spelling
  (`HttpMessageProofs.OtherSpellingOverridesPath`); `HttpMessageProofs.BuiltField` says exactly when.
- A template without a verb matches a path that ends in a bare colon (`HttpPaths.BareColonMatches`), although the
  matcher's comment says that such a template never matches a path that carries a verb; it matches no other path with a
  colon in its last component (`HttpPaths.ColonWithoutVerbIff`).
- A reflection stream that ends early still returns success with dependencies missing (`ReflectionFetch.EarlyEnd`);
  `ReflectionFetch.Fetch` says exactly when the walk fails, when it is complete, and what can be missing.
- `next()` outstanding across a `pause()` can be told of the end while messages are queued (`H2tsReader.EarlyHappens`);
  `H2tsReader.EndComesLast` and `H2tsReader.EarlyIsEarly` give the condition.
- The bound of one token per retry holds for every ratio and history exactly when the bucket holds at least two tokens
  (`Throttle.WholeTokenIff`); a bucket of one breaks it (`Throttle.SmallBucketGrantsMore`).
- A successful status is retried when it carries a pushback delay (`Retry.SuccessRetriedIff`).
- A server-streaming call can emit the metadata of an attempt that was thrown away
  (`Retry.MetadataFromEarlierAttempt`); `Retry.MetadataIsLastAttemptsIff` says exactly when it does not.
- `close()` does not stop an h2ts transport from dialling: the next call always does (`Channel.CallAfterCloseDials`, with
  exactly when two tunnels are then alive; `Channel.CloseDoesNotStopDialling` is an instance).
- A drain may report success while a handler that arrived later is in flight (`Drain.NilWithHandlerInFlight`); it can
  report success exactly once nothing was in flight at some instant since it began (`Drain.DrainInvariant`).

## Model

| member | source | states |
|---|---|---|
| `WsFrames.CodecsAgree` | rust/crates/grpc-webnext/src/json_frame.rs:97-147 | What the server encodes surfaces as the same callback in text and in binary; what the client encodes is read as the same frame, except that a text message comes back exactly when it is not null, and a null one is read as a half-close. |
| `WsServerTheorems.StepInv` | rust/crates/grpc-webnext/src/ws.rs:101-424 | Every step of reader, task or writer keeps the eight invariants of a connection. |
| `WsServerTheorems.RunInv` | rust/crates/grpc-webnext/src/ws.rs:57-190 | They hold in every state of every execution. |
| `WsServerTheorems.WireGrows` | rust/crates/grpc-webnext/src/ws.rs:101-117 | What was written stays written: the wire at one instant is a prefix of the wire at any later one. |
| `WsServerTheorems.ClosesAreLast` | rust/crates/grpc-webnext/src/ws.rs:101-117 | Nothing, not even a ping, is written after a close, and every 1000 close has a `Trailer` or `Reset` before it on the wire. |
| `WsServerTheorems.GoingAwayOnlyWhenIdle` | rust/crates/grpc-webnext/src/ws.rs:150-160 | A 1001 close is on the wire only while no stream is open, and none opens later. |
| `WsServerTheorems.TaskOutputs` | rust/crates/grpc-webnext/src/ws.rs:278-424 | Each stream task's own output, finished or aborted, is a prefix of Header? Message* (Trailer or Reset) Close. |
| `WsServerTheorems.CodecStays` | rust/crates/grpc-webnext/src/ws.rs:121-181 | Once fixed, the connection's codec never changes. |
| `WsServerTheorems.OneCodec` | rust/crates/grpc-webnext/src/ws.rs:161-181 | Every data frame ever queued or written has the codec of every dispatched message. |
| `WsServerTheorems.RequestBody` | rust/crates/grpc-webnext/src/ws.rs:196-275 | The request body of an open stream is exactly the nonempty initial payload and then the messages up to half-close, in order, each within the limit, while the stream task reads; a prefix of that once it has stopped. |
| `WsServerSteps.SubscribeIff` | rust/crates/grpc-webnext/src/ws.rs:205-248 | A `Subscribe` opens a stream exactly when none is open, its inline message is within the limit and the method is valid; it starts with that message, and on a route without a body with one empty message and no more to come. Otherwise the reader's next sends are a `Reset` (8 for size, else 3) and a normal close; or, with a stream open, a `Reset` (3) alone, and the stream is not touched. |
| `WsServerSteps.EndingFrames` | rust/crates/grpc-webnext/src/ws.rs:249-272 | A message over the limit ends the stream and is answered by a `Reset` (8) and a normal close; a client's `Reset` ends it and is not answered. |
| `WsServerSteps.RequestFrames` | rust/crates/grpc-webnext/src/ws.rs:249-267 | A message up to the limit and a half-close leave a stream open, unanswered: the reader's next step gives the message to the stream task while it reads and the request side is open, and the half-close ends that side. |
| `WsServerSteps.DrainIff` | rust/crates/grpc-webnext/src/ws.rs:150-160 | Draining without a stream sends the 1001 close and leaves; with one it changes nothing but the flag. |
| `WsServerSteps.PeerLeaves` | rust/crates/grpc-webnext/src/ws.rs:161-189 | A peer that closes or is gone ends the reader and its stream for good, and nothing is sent for it. |
| `WsServerSteps.WriterSays` | rust/crates/grpc-webnext/src/ws.rs:101-117 | Each writer step: the next message, and nothing after a close; a ping between messages; what is left when it stops is dropped. |
| `WsServerSteps.TaskSays` | rust/crates/grpc-webnext/src/ws.rs:293-416 | What each step of the stream task sends: the response as it comes, or the status of what went wrong, with its code. |
| `WsServerSteps.DeadlineIff` | rust/crates/grpc-webnext/src/ws.rs:397-409 | A stream has a deadline, and so can end by one, exactly when the frame that opened it asked for one. |
| `WsServerSteps.FirstFrame` | rust/crates/grpc-webnext/src/ws.rs:482-507 | The first frame dispatched is a `Subscribe`, and a text connection never has a second. |
| `WsServerSteps.QueuesAreBounded` | rust/crates/grpc-webnext/src/ws.rs:96-96 | The outbound FIFO never holds more than 64 messages, nor a request channel more than 16. |
| `WsServerSteps.TaskMoves` | rust/crates/grpc-webnext/src/ws.rs:293-416 | What the stream task may do next, phase by phase, and that room in the outbound FIFO is all it waits for. |
| `WsServerSteps.NeverStuck` | rust/crates/grpc-webnext/src/ws.rs:57-190 | No deadlock: in every reachable state a reader that is not done takes whatever comes or can go on, or the writer or the stream task can; and a stream task that is not done can go on, or the writer can. |
| `WsClient.SingleStreamConn.constructor` | node/packages/client/src/ws-transport.ts:81-148 | A new connection has the open frame pending and nothing sent or reported. |
| `WsClient.SingleStreamConn.OnOpen` | node/packages/client/src/ws-transport.ts:93-97 | Opening sends the pending frames in order and empties the buffer. |
| `WsClient.SingleStreamConn.SendFrame` | node/packages/client/src/ws-transport.ts:166-171 | A frame is dropped when finished, sent when open and buffered otherwise. |
| `WsClient.SingleStreamConn.Terminate` | node/packages/client/src/ws-transport.ts:172-178 | Cancel or deadline: a `Reset`, then the status, then the socket is closed; nothing when already finished. |
| `WsClient.SingleStreamConn.Finish` | node/packages/client/src/ws-transport.ts:179-185 | The status is reported once. |
| `WsClient.SingleStreamConn.OnWsMessage` | node/packages/client/src/ws-transport.ts:186-237 | A frame becomes at most one callback; a terminal one finishes the call; nothing after it surfaces. |
| `WsClient.SingleStreamConn.OnClose` | node/packages/client/src/ws-transport.ts:238-266 | A close without a status before it reports the status its private code carries, or unavailability. |
| `WsSystem.SysStepInv` | node/packages/client/src/ws-transport.ts:72-266 | Every step of client, server or socket keeps the invariant that ties what the client has surfaced to what the server put on the wire and what the server dispatched to what the client sent. |
| `WsSystem.ResponsesEndToEnd` | node/packages/client/src/ws-transport.ts:166-241 | In every execution the status fires at most once and last; delivered payloads are a prefix, in order, of what the one stream task emitted; after a status from a trailer they are all of them and the status is the trailer's. |
| `WsSystem.OpensExactly` | rust/crates/grpc-webnext/src/ws.rs:205-248 | Once the server has read anything, exactly one stream has been opened if the method is valid, and none if not. |
| `WsSystem.CloseCodesSurface` | node/packages/client/src/ws-transport.ts:244-265 | A close that finishes the call is reported as the status of its private code, or as unavailability; a refused handshake's own code reaches the caller. |
| `WsSystem.CancelIsTold` | node/packages/client/src/ws-transport.ts:172-177 | Cancelling reports its status at once, and the next thing the server is sent is a `Reset` with the same code and text. |
| `WsSystem.OpenIffEstablished` | node/packages/client/src/ws-transport.ts:93-100 | The client counts its socket open exactly while it is, and sends nothing once it is gone. |
| `WsSystem.ClosesSurfaceRightly` | node/packages/client/src/ws-transport.ts:238-266 | A 1000 close never finishes a call, and a call finished by a 1001 close never had its stream opened. |
| `WsSystem.IntendedIff` | node/packages/client/src/ws-transport.ts:150-158 | The body that arrives is a prefix of what the user meant, and all of it exactly when no message is lost to the codec. |
| `WsSystem.NullEndsRequest` | rust/crates/grpc-webnext/src/json_frame.rs:108-121 | A null sent first in the text codec ends the request with nothing arrived. |
| `WsSystem.RequestsEndToEnd` | rust/crates/grpc-webnext/src/ws.rs:196-275 | What the stream task is fed is, in order, a prefix of what the user meant; once the end of the request is dispatched, while the stream task reads, it is the whole body that arrives, and all the user meant exactly when nothing was lost to the codec. |
| `LengthPrefixed.ParseResumes` | rust/crates/grpc-webnext/src/grpc_framing.rs:33-50 | Parsing two pieces one after the other, carrying the remainder, is parsing their concatenation. |
| `LengthPrefixed.FramesRoundTrip` | rust/crates/grpc-webnext/src/grpc_framing.rs:13-66 | Parsing the framing of any messages followed by an incomplete tail gives the messages and the tail. |
| `LengthPrefixed.FrameRoundTripIff` | rust/crates/grpc-webnext/src/grpc_framing.rs:13-21 | Framing one message is undone by the parse exactly when its length fits 32 bits. |
| `LengthPrefixed.BadAtBoundary` | rust/crates/grpc-webnext-client/src/codec.rs:32-67 | A stream is refused exactly when a complete compressed or oversize header stands at a frame boundary. |
| `LengthPrefixed.OversizeAtBoundary` | rust/crates/grpc-webnext/src/h2ts.rs:137-166 | A stream exceeds the limit exactly when some length declared at a frame boundary does. |
| `LengthPrefixed.RestIsBounded` | rust/crates/grpc-webnext-client/src/codec.rs:32-73 | Without a refused header the remainder is shorter than a header plus the limit. |
| `Deframers.Deframer.NextMessage` | rust/crates/grpc-webnext/src/grpc_framing.rs:38-50 | Takes the first complete message off the buffer, or leaves the buffer alone. |
| `Deframers.DeframeAll` | rust/crates/grpc-webnext/src/grpc_framing.rs:58-66 | Returns the messages of the pure parse. |
| `Deframers.PumpChunks` | rust/crates/grpc-webnext/src/grpc_framing.rs:27-56 | For every chunking the server deframer outputs the pure parse and holds its remainder. |
| `Deframers.GrpcFrameParser.Push` | node/packages/client/src/h2ts-transport.ts:248-270 | One push outputs the parse of buffer and chunk and keeps its remainder. |
| `Deframers.GrpcFrameParser.PushAll` | node/packages/client/src/h2ts-transport.ts:248-270 | For every chunking the TypeScript parser outputs the pure parse and holds its remainder. |
| `Deframers.ClientDeframer.Push` | rust/crates/grpc-webnext-client/src/codec.rs:32-67 | Fails exactly on a refused header at a boundary, with the right status, draining nothing; otherwise agrees with the parse and holds fewer than 5 + max bytes. |
| `Deframers.ClientDeframer.PushAll` | rust/crates/grpc-webnext-client/src/codec.rs:11-73 | Over any chunking it fails on the push that completes the first refused header and on none before. |
| `Deframers.RefusalIsFinal` | rust/crates/grpc-webnext-client/src/codec.rs:32-67 | More bytes do not change a refusal. |
| `Deframers.RefusalIsTheFirst` | rust/crates/grpc-webnext-client/src/codec.rs:32-67 | A refusal is for the first refused header at a boundary: unimplemented if it is compressed, else resource exhausted. |
| `Deframers.GrpcSizeLimit.Inspect` | rust/crates/grpc-webnext/src/h2ts.rs:137-166 | Accepts a chunk exactly when no length declared at a boundary of all bytes so far exceeds the limit; the loop ends despite its step that consumes nothing. |
| `Deframers.GrpcSizeLimit.InspectAll` | rust/crates/grpc-webnext/src/h2ts.rs:121-166 | A chunked stream is accepted exactly when every declared length is within the limit, whatever the chunking. |
| `FetchBody.ResponseRoundTrip` | rust/crates/grpc-webnext/src/framing.rs:31-98 | Decoding an encoded response gives message and trailer back, or the size error, according to the limit. |
| `FetchBody.PrefixIsRejected` | rust/crates/grpc-webnext/src/framing.rs:71-98 | A body that stops within or right after its message block is rejected, whatever trailers decode. |
| `FetchBody.TakeBlock` | rust/crates/grpc-webnext/src/framing.rs:83-98 | Reads one block and advances, or reports how much is missing. |
| `FetchBody.DecodeResponseBody` | rust/crates/grpc-webnext/src/framing.rs:71-80 | Size error, truncation of either block, undecodable trailer, or both parts: the server library's decoder, given its protobuf library's verdict. |
| `FetchBody.DecodeFetchResponseBody` | node/packages/client/src/frame.ts:37-69 | The TypeScript decoder takes the same blocks under its own protobuf library's verdict on the trailer. |
| `FetchBody.StreamResponse` | rust/crates/grpc-webnext/src/fetch.rs:243-303 | The re-framing loop, for any split into frames, any trailers, errors and a deadline, yields the specified bytes and ending. |
| `FetchBody.UnaryEndToEnd` | rust/crates/grpc-webnext/src/fetch.rs:243-303 | One uncompressed response frame, however split and with no deadline before its end, streams as the buffered encoding and decodes to its message and trailer. |
| `FetchBody.TrailersOnlyEndToEnd` | rust/crates/grpc-webnext/src/fetch.rs:243-303 | A response without message bytes is the encoding of an empty message, with the deadline's status exactly if that fired. |
| `FetchBody.TrailersAreTheLast` | rust/crates/grpc-webnext/src/fetch.rs:270-274 | The trailers are those of the last trailers frame, or none. |
| `FetchBody.CutIsRejected` | rust/crates/grpc-webnext/src/fetch.rs:243-303 | A single-frame response cut by a deadline after message bytes were sent never decodes. |
| `FetchBody.CutAcceptedIff` | rust/crates/grpc-webnext/src/fetch.rs:243-303 | With two frames a stream cut by the deadline decodes exactly when it is within the limit, reaches a stated distance into the second frame, and the bytes there decode as a trailer; and then to what. |
| `FetchBody.CutMisread` | rust/crates/grpc-webnext/src/fetch.rs:277-282 | Two frames, the second empty, cut at their end, are read as the first message with an empty trailer. |
| `FetchBody.EncodeFetchRequestBody` | node/packages/client/src/frame.ts:20-25 | The buffer filled byte by byte holds the message behind its 32-bit big-endian length. |
| `FetchBody.FrameUpstreamRequest` | rust/crates/grpc-webnext/src/fetch.rs:484-517 | For every chunking: refused for a read error before the prefix, a missing prefix or a declared length over the limit, in that order; else the flag and the bytes read, and whether they end in a read error. |
| `FetchBody.UpstreamBreaksIff` | rust/crates/grpc-webnext/src/fetch.rs:505-514 | A forwarded upload ends in an error exactly when some read of it failed, and otherwise is the flag and every byte; one that never fails is never refused as failed. |
| `FetchBody.RequestEndToEnd` | rust/crates/grpc-webnext/src/fetch.rs:484-517 | For every chunking of what the client encodes: a message within the limit is forwarded as one gRPC frame that parses to it, a larger one is refused, and an upload that breaks off never parses to a message. |
| `HttpTemplate.SplitOutsideBraces` | rust/crates/grpc-webnext/src/httprule.rs:292-309 | The one-pass splitter with its depth counter computes the recursive split. |
| `HttpTemplateProofs.JoinSplit` | rust/crates/grpc-webnext/src/httprule.rs:292-318 | Joining the pieces of any split gives the text back. |
| `HttpTemplateProofs.SplitJoin` | rust/crates/grpc-webnext/src/httprule.rs:292-309 | Splitting joined pieces, none of which holds a separator outside braces, gives the pieces back. |
| `HttpTemplateProofs.SegmentBack` | rust/crates/grpc-webnext/src/httprule.rs:328-350 | The text of a segment, with its pattern or in the short form, compiles to it, and neither splitter cuts it. |
| `HttpTemplateProofs.ShortBack` | rust/crates/grpc-webnext/src/httprule.rs:329-330 | `{f}` without a pattern captures one component, for every field path. |
| `HttpTemplateProofs.TemplateRoundTrip` | rust/crates/grpc-webnext/src/httprule.rs:314-350 | Any text of any well-formed template, with or without the pattern of each one-component capture, with slashes to spare anywhere and any custom verb, compiles to template and verb. |
| `HttpTemplateProofs.ShortTemplate` | rust/crates/grpc-webnext/src/httprule.rs:314-350 | `/v1/{id}` compiles to a literal and a one-component capture. |
| `HttpMatch.PercentDecodeLoop` | rust/crates/grpc-webnext/src/httprule.rs:619-635 | The cursor loop computes the recursive decoding. |
| `HttpMatch.MatchList` | rust/crates/grpc-webnext/src/httprule.rs:383-410 | The loop that advances an index and appends captures computes the recursive matcher, on success and failure. |
| `HttpMatch.MatchSegments` | rust/crates/grpc-webnext/src/httprule.rs:362-379 | Cutting the verb off the last component in place computes the path matcher. |
| `HttpMatch.MatchRequest` | rust/crates/grpc-webnext/src/httprule.rs:186-200 | The first route in table order whose method and path take the request, and none before it does. |
| `HttpPaths.UpperAt` | rust/crates/grpc-webnext/src/httprule.rs:187-187 | The method is looked up with its letters raised and nothing else changed. |
| `HttpMatchProofs.Sound` | rust/crates/grpc-webnext/src/httprule.rs:383-410 | For every template, what is consumed and captured is a filling of the template and its captures. |
| `HttpMatchProofs.Complete` | rust/crates/grpc-webnext/src/httprule.rs:383-410 | With `**` only last, every filling of the remaining components is matched to the end with its captures. |
| `HttpMatchProofs.DecidesIff` | rust/crates/grpc-webnext/src/httprule.rs:383-410 | The matcher decides the language exactly of the templates in which nothing but `**` follows a `**`; others match nothing. |
| `HttpMatchProofs.CapturesAreUnique` | rust/crates/grpc-webnext/src/httprule.rs:383-410 | With `**` only last, all fillings of a component list give the captures the matcher returns. |
| `HttpMatchProofs.TwoRestsAreAmbiguous` | rust/crates/grpc-webnext/src/httprule.rs:383-410 | Two captured `**` in a row have fillings with different captures. |
| `HttpPaths.ToldSpells` | rust/crates/grpc-webnext/src/httprule.rs:362-376 | A component list says at most one pair of components and verb, and the matcher reads exactly it. |
| `HttpPaths.ComponentsConcat` | rust/crates/grpc-webnext/src/httprule.rs:363-363 | A slash separates components and nothing else does: paths joined by one have the components of both, a nonempty word without slashes is one, and nothing has none. |
| `HttpPaths.MatchPathIff` | rust/crates/grpc-webnext/src/httprule.rs:362-410 | With `**` only last, a path matches with given captures exactly when it says the template's verb and components that some filling yields with those captures. |
| `HttpPaths.VerbsSeparate` | rust/crates/grpc-webnext/src/httprule.rs:352-379 | Templates with different custom verbs never match the same path. |
| `HttpPaths.BareColonIsIgnored` | rust/crates/grpc-webnext/src/httprule.rs:362-376 | A bare trailing colon changes neither the match nor the captures of a template without a verb. |
| `HttpPaths.ColonWithoutVerbIff` | rust/crates/grpc-webnext/src/httprule.rs:352-376 | A template without a verb matches a path with a colon in its last component exactly when that one colon ends it, behind something, and the rest matches. |
| `HttpPaths.BareColonMatches` | rust/crates/grpc-webnext/src/httprule.rs:362-379 | `/v1/{id}` matches `/v1/5:` and captures `5`. |
| `HttpPaths.EncodesDecodes` | rust/crates/grpc-webnext/src/httprule.rs:619-635 | Any percent-encoding that escapes at least slash, colon and percent decodes to its value and is a safe component. |
| `HttpPaths.EscapeEncodes` | rust/crates/grpc-webnext/src/httprule.rs:619-635 | Every value has such an encoding. |
| `HttpPaths.HexPairIff` | rust/crates/grpc-webnext/src/httprule.rs:624-627 | Two characters are read as a byte exactly when they are its hexadecimal digits in either case, or a plus sign and one digit. |
| `HttpPaths.EscapeAllDecodes` | rust/crates/grpc-webnext/src/httprule.rs:619-635 | Escaping every byte, in either case, decodes to what it was. |
| `HttpPaths.FilledPathMatches` | rust/crates/grpc-webnext/src/httprule.rs:314-410 | Compile any of a template's texts, fill its wildcards with encodings of nonempty values, and the path matches and captures exactly the values joined by slashes. |
| `HttpMessage.BuildMessage` | rust/crates/grpc-webnext/src/httprule.rs:413-449 | The two overlay loops compute body, then path variables, then the query parameters not spelled like one. |
| `HttpMessageProofs.AcceptedIff` | rust/crates/grpc-webnext/src/httprule.rs:526-566 | An assignment is refused exactly when its path does not resolve or its text does not convert, never because of the message. |
| `HttpMessageProofs.BindsByKind` | rust/crates/grpc-webnext/src/httprule.rs:530-559 | Bytes and well-known types bind through the JSON decoder, other messages not at all, scalars by conversion, added to a list or replacing. |
| `HttpMessageProofs.GetSet` | rust/crates/grpc-webnext/src/httprule.rs:526-566 | A field reads back as written: replaced, or grown by one item if repeated. |
| `HttpMessageProofs.SetFrame` | rust/crates/grpc-webnext/src/httprule.rs:526-566 | Every field that parts from the path, outside its oneofs, is unchanged. |
| `HttpMessageProofs.SetClearsRivals` | rust/crates/grpc-webnext/src/httprule.rs:526-566 | The other members of every oneof along the path are cleared. |
| `HttpMessageProofs.ResolvesIff` | rust/crates/grpc-webnext/src/httprule.rs:461-469 | A name resolves exactly when some field has it as proto or JSON name, and a proto name wins. |
| `HttpMessageProofs.FieldValue` | rust/crates/grpc-webnext/src/httprule.rs:431-445 | After any list of assignments a field's value depends on the body and its own assignments only. |
| `HttpMessageProofs.BuiltField` | rust/crates/grpc-webnext/src/httprule.rs:413-449 | A singular field bound in the path has its last path value whatever the body, unless a query key names it by another spelling; unnamed fields keep the body's value; repeated ones accumulate body, path, query. |
| `HttpMessageProofs.BuiltBody` | rust/crates/grpc-webnext/src/httprule.rs:419-429 | In the decoder's own terms: an undecodable body refuses; a field that neither path nor query names reads as the decoded body has it under `*`, as the one field under a field rule, and is absent without a body. |
| `HttpMessageProofs.BuiltRefusedIff` | rust/crates/grpc-webnext/src/httprule.rs:413-449 | A request is refused exactly when its body is, or some assignment does not resolve or convert. |
| `HttpMessageProofs.QueryRoundTrip` | rust/crates/grpc-webnext/src/httprule.rs:602-617 | Any writing of any list of parameters, with plus signs for spaces, escapes, bare keys and spare ampersands, reads back as that list. |
| `HttpMessageProofs.OtherSpellingOverridesPath` | rust/crates/grpc-webnext/src/httprule.rs:436-445 | A query key under the JSON name overrides a path variable under the proto name. |
| `FileOrder.Visit` | rust/crates/grpc-webnext/src/reflect.rs:96-111 | A visit ends on every graph and keeps the listing: each finished file once, after its present dependencies except those that lead back to it. |
| `FileOrder.TopoSort` | rust/crates/grpc-webnext/src/reflect.rs:95-121 | Every file exactly once, on every graph; dependencies come first exactly when the graph is acyclic. |
| `FileOrder.FirstIffAcyclic` | rust/crates/grpc-webnext/src/reflect.rs:93-121 | A listing misplaced only where a dependency leads back is dependency-first exactly on acyclic graphs. |
| `FileSet.PushFileDescriptor` | rust/crates/grpc-webnext/src/reflect.rs:126-141 | Appends tag, varint length and the bytes verbatim. |
| `FileSet.SplitFiles` | rust/crates/testecho/src/lib.rs:221-242 | The reader's two loops compute the recursive reading, with `None` where the code panics. |
| `FileSet.FramedRoundTrip` | rust/crates/testecho/src/lib.rs:221-242 | Splitting the framing of any list of files gives the files back. |
| `FileSet.VarintIsBase128` | rust/crates/grpc-webnext/src/reflect.rs:128-139 | A length is written in base 128, lowest digit first, the top bit clear in exactly the last byte. |
| `FileSet.TagIsFileField` | rust/crates/grpc-webnext/src/reflect.rs:123-127 | The tag is field number 1 with wire type 2. |
| `ReflectionFetch.Ask` | rust/crates/grpc-webnext/src/reflect.rs:189-194 | Afterwards every dependency is collected or asked for; each is asked for at most once and never when already collected. |
| `ReflectionFetch.TakeFiles` | rust/crates/grpc-webnext/src/reflect.rs:186-197 | Reading one reply succeeds exactly when every file decodes, collects what it holds and nothing else, keeps every dependency collected or asked for, and counts each request sent. |
| `ReflectionFetch.Fetch` | rust/crates/grpc-webnext/src/reflect.rs:176-206 | The walk ends on every finite universe, its counter equal to the unanswered requests. It fails exactly when the last answer was a refusal or did not decode; otherwise it holds what was supplied and nothing else, is closed when nothing is left unanswered, and nothing is left unless the stream ended first; what it then lacks is among the requests left. |
| `ReflectionFetch.EarlyEnd` | rust/crates/grpc-webnext/src/reflect.rs:182-205 | A stream that ends after one reply: success, with a dependency missing. |
| `ReflectionFetch.ClosedReaches` | rust/crates/grpc-webnext/src/reflect.rs:178-205 | A closed collection holds everything its files lead to. |
| `ReflectionFetch.ClosedUnion` | rust/crates/grpc-webnext/src/reflect.rs:61-71 | Merging two services' collections keeps closure. |
| `ReflectionFetch.FrameSorted` | rust/crates/grpc-webnext/src/reflect.rs:76-80 | The framed set splits back into every file's bytes, once each, dependencies first exactly on acyclic graphs. |
| `ReadableStream.ClientReadableStream.ResumeStream` | node/packages/client/src/call.ts:88-101 | Hands the whole backlog to a listener in order, or one message to an outstanding `next()`, and wakes parked deliveries only below the mark. |
| `ReadableStream.ClientReadableStream.DeliverMessage` | node/packages/client/src/call.ts:115-130 | Listener, waiter or queue, in that order; a promise is handed back exactly when paused or at the mark. |
| `ReadableStream.ClientReadableStream.FinishStream` | node/packages/client/src/call.ts:138-148 | Ends the stream, frees every parked delivery and settles an outstanding `next()`. |
| `ReadableStream.ClientReadableStream.NextMessage` | node/packages/client/src/call.ts:154-168 | The queue first, then the error, then the end, else it waits. |
| `ReadableStream.DeliverValid` | node/packages/client/src/call.ts:115-130 | Delivery keeps order and conservation (taken then queued is accepted) and never parks without a reason. |
| `ReadableStream.ResumeValid` | node/packages/client/src/call.ts:88-101 | So does resuming. |
| `ReadableStream.FinishValid` | node/packages/client/src/call.ts:138-152 | So do finishing and failing. |
| `ReadableStream.NextValid` | node/packages/client/src/call.ts:154-168 | So does taking a message. |
| `ReadableStream.NextFreesParked` | node/packages/client/src/call.ts:132-161 | One `next()` on a stream that is not paused wakes every parked delivery. |
| `H2tsReader.StepKeeps` | node/packages/client/src/h2ts-transport.ts:190-213 | Every step of loop, abort or consumer keeps the composed invariant. |
| `H2tsReader.Backpressure` | node/packages/client/src/h2ts-transport.ts:190-203 | In every schedule the yielded then the queued messages are the body so far, in order; the queue stays within the mark, pause included; a delivery stays parked only while paused or at the mark. |
| `H2tsReader.LoopMovesOn` | node/packages/client/src/h2ts-transport.ts:190-213 | Only a parked delivery holds the loop up, and only its consumer holds a parked delivery up. |
| `H2tsReader.EndComesLast` | node/packages/client/src/call.ts:138-168 | End and error surface only with the queue empty, and a clean end only after the whole body, unless the report came while a `next()` was outstanding on a paused, nonempty stream. |
| `H2tsReader.OutcomesAreTheVerdict` | node/packages/client/src/call.ts:138-168 | In every schedule a `next()` that settles without a message settles with the end if the call was reported without an error, and with that error otherwise; once reported and drained the next one does so at once; the others settle with the messages in order. |
| `H2tsReader.VerdictIsReported` | node/packages/client/src/h2ts-transport.ts:204-213 | A call is reported at most once, and its verdict is what that report said. |
| `H2tsReader.PausedHolds` | node/packages/client/src/call.ts:82-130 | While paused a delivery hands nothing over: the message queues and its promise parks. |
| `H2tsReader.EarlyIsEarly` | node/packages/client/src/call.ts:138-148 | In that case it does surface early, so the condition is exact. |
| `H2tsReader.EarlyHappens` | node/packages/client/src/call.ts:138-148 | A schedule in which it happens. |
| `Throttle.Bucket.RecordFailure` | node/packages/client/src/retry.ts:72-74 | One failure is recorded; a granted one keeps the history legal if the bucket allowed it. |
| `Throttle.Bucket.RecordSuccess` | node/packages/client/src/retry.ts:75-77 | One success is recorded, capped at the bucket's size. |
| `Throttle.RangeIff` | node/packages/client/src/retry.ts:64-78 | The balance stays between zero and the maximum over every history exactly when neither setting is negative. |
| `Throttle.GrantsBounded` | node/packages/client/src/retry.ts:60-78 | Over any interleaving of calls, for any positive bucket, granted retries are bounded by half the bucket, one more, and what successes returned, at the least price a retry can have. |
| `Throttle.GrantsBelow` | node/packages/client/src/retry.ts:60-78 | For buckets of two or more: fewer than maxTokens/2 + 1 + tokenRatio times the successes. |
| `Throttle.WholeTokenIff` | node/packages/client/src/retry.ts:60-78 | For a bucket of a given positive size that bound holds for every ratio and every history exactly when the size is at least two. |
| `Throttle.SmallBucketGrantsMore` | node/packages/client/src/retry.ts:72-77 | A history of a bucket of one that breaks it. |
| `Retry.ResolvePolicy` | node/packages/client/src/retry.ts:50-58 | Every setting is brought into range, whatever was configured. |
| `Retry.ResolvedSettings` | node/packages/client/src/retry.ts:50-58 | Settings in range are kept, others moved to the nearest bound, missing ones default. |
| `Retry.BackoffGrows` | node/packages/client/src/retry.ts:100-103 | Before jitter: the initial delay first, each next the multiple of the last, up to the ceiling. |
| `Retry.NextDelayIff` | node/packages/client/src/retry.ts:131-148 | A retry is granted exactly when attempts remain, the throttle allows it, and either a readable nonnegative pushback is present or, without a pushback, the code is retryable. |
| `Retry.SuccessRetriedIff` | node/packages/client/src/retry.ts:137-147 | A success is retried exactly when the server named a delay, or said nothing and the policy lists success, while attempts remain and the throttle allows it. |
| `Retry.BackoffInRange` | node/packages/client/src/retry.ts:100-103 | The jittered delay is between zero and both the target and the ceiling. |
| `Retry.AfterAttempt` | node/packages/client/src/client.ts:234-242 | The decision after an attempt, and what it records: a grant; else a success for OK, a failure for a listed code, nothing for any other. |
| `Retry.AfterAttemptOn` | node/packages/client/src/client.ts:295-305 | On a shared bucket, in one step: a granted retry or a listed failure takes a token if there is one, an unretried OK returns the ratio up to the maximum, anything else leaves the balance; the history stays legal. |
| `SharedThrottle.StepKeeps` | node/packages/client/src/client.ts:234-242 | Every step of any call keeps the bucket's history legal, every call within its limit, and every extra attempt paid for. |
| `SharedThrottle.LoadIsBounded` | node/packages/client/src/client.ts:234-305 | In every interleaving of calls sharing a bucket, attempts beyond one per call are at most the retries granted, and those stay below half the bucket, one more, and what the calls that ended in success returned. |
| `Retry.UnaryCall` | node/packages/client/src/client.ts:219-254 | For every script of attempts: at most maxAttempts (one without a policy), and the caller sees exactly the first that is not followed by another. |
| `Retry.ReportedShape` | node/packages/client/src/client.ts:244-252 | The callback fires once and last, with the message of a success or else the status as an error; an answered attempt's headers and status come before it, once each. |
| `Retry.ServerStreamCall` | node/packages/client/src/client.ts:271-320 | For every script: at most maxAttempts; it emits metadata at most once and first, the messages of the last attempt and no other, that attempt's status, and exactly one of end and error. |
| `Retry.StreamShape` | node/packages/client/src/client.ts:280-320 | Part by part: metadata at most once and only first, exactly the last attempt's messages, its status last but one, and last the end for a success or else an error with that status. |
| `Retry.AttemptSignals` | node/packages/client/src/client.ts:280-293 | The commit rule: metadata held until the first message, then the messages in order. |
| `Retry.MetadataIsLastAttemptsIff` | node/packages/client/src/client.ts:276-289 | A call's metadata is its last attempt's own, or absent with it, exactly when that attempt sent headers before its first message or no earlier attempt sent any. |
| `Retry.MetadataFromEarlierAttempt` | node/packages/client/src/client.ts:276-311 | A call of two attempts, under a policy that retries the first, that emits the first's metadata with the second's status. |
| `Channel.ConnectivityWatch.Set` | node/packages/client/src/connectivity.ts:41-58 | A repeat changes nothing; a change is logged once and told to every listener once, in order. |
| `Channel.H2tsTransport.Conn` | node/packages/client/src/h2ts-transport.ts:63-97 | Returns the cached tunnel if alive, else dials one; either way the tunnel returned is alive and cached. |
| `Channel.H2tsTransport.OnDialOpened` | node/packages/client/src/h2ts-transport.ts:76-87 | A dial that succeeds reports READY. |
| `Channel.H2tsTransport.OnDialRefused` | node/packages/client/src/h2ts-transport.ts:88-93 | A dial that fails is dropped from the cache and reported. |
| `Channel.H2tsTransport.OnTunnelClosed` | node/packages/client/src/h2ts-transport.ts:77-84 | A lost connection leaves the cache and, if it was cached and the transport is open, reports IDLE. |
| `Channel.H2tsTransport.Close` | node/packages/client/src/h2ts-transport.ts:228-234 | Forgets the tunnel, once. |
| `Channel.OneTunnel` | node/packages/client/src/h2ts-transport.ts:63-97 | Before `close()`, in every execution: at most one tunnel is alive and it is the cached one; open is READY, pending is CONNECTING, none is IDLE or TRANSIENT_FAILURE by how the last one ended. |
| `Channel.LogIsOrderly` | node/packages/client/src/connectivity.ts:41-58 | The states reported never repeat, follow the channel's automaton, and put IDLE between a READY and the next CONNECTING. |
| `Channel.CallAfterCloseDials` | node/packages/client/src/h2ts-transport.ts:63-97 | After the first `close()` the next call always dials; the tunnels then alive are the new one and, exactly when it has not ended in between, the one cached at the `close()`. |
| `Channel.CloseDoesNotStopDialling` | node/packages/client/src/h2ts-transport.ts:228-234 | An execution with two tunnels alive, and no IDLE between READY and CONNECTING. |
| `Drain.LiveConns.AddOne` | go/webnext/server.go:65-69 | One more in flight. |
| `Drain.LiveConns.DoneOne` | go/webnext/server.go:71-76 | One fewer, and the idle channel is closed if that was the last while draining. |
| `Drain.LiveConns.StartWait` | go/webnext/server.go:79-83 | Draining begins, and the channel is closed if nothing is in flight. |
| `Drain.DrainInvariant` | go/webnext/server.go:56-102 | In every interleaving the count is the handlers in flight, the channel is closed at most once and exactly when nothing was in flight at some instant since draining began, and `wait` can return nil exactly then. |
| `Drain.NilWithHandlerInFlight` | go/webnext/server.go:79-90 | `wait` can return nil while a handler that arrived later is in flight. |

## Left out

- Sockets, TLS, tokio, hyper, gorilla, the h2ts library and HTTP/2 flow control: FIFO channels and steps that may happen at any allowed moment stand for them.
- Protobuf and protobuf-JSON codecs, JSON text itself and scalar conversion: messages are bytes, JSON values are their serialized bytes, and conversions and verdicts on what decodes are parameters.
- The WebSocket server loop as mutable variables: it is a step system on values, because its theorems are about interleavings of three tasks; aborting a task is one atomic step.
- Payloads of a text stream that are not JSON: the client throws on one and the server sends null in its place; here every payload of a text stream is a JSON value.
- The stream task's inner plumbing (request mapping, metadata filtering, compression): a task is the sequence of things it may send.
- WsSystem.RequestsEndToEnd: covers the main endpoint and routes that take a body; on a route without one the body is a single empty payload.
- `set_by_path` as an update in place of nested messages: it is a function on values; the builder around it is a loop over one message.
- UTF-8: strings are one character per byte; lossy decoding, and the panic when a percent escape is followed by a character cut in half, are not modelled.
- `names.sort()` in the file ordering: the theorems hold for any enumeration of the keys.
- FileOrder.TopoSort: says nothing about which of the valid orders is produced.
- ReflectionFetch.Fetch: replies come in the order of requests, one per request; a transport error that aborts the walk with a status is not modelled.
- Oversized varints: a shift past 64 bits is a panic, as in a debug build.
- NaN and infinite retry settings, and the parsing of the pushback header's digits: settings are reals and the header is absent, unreadable or a number.
- Re-entrant or throwing listeners, a `data` listener attached after messages were queued, two outstanding `next()` calls.
- The routing table's compilation from descriptors, `additional_bindings`, `response_body`, JSON transcoding of responses.
- Go ports of the router, framing and WebSocket server: the same algorithms a second time.
- Sharing of dials between waiters in the Rust client, and transparent replay on a dead tunnel.
- Base64 metadata, header deny lists, timeout conversion, status tables and URL mapping: each is settled by one branch.
