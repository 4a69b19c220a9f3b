# Message codecs, live clients and caches: a verified model

This project models the self-contained algorithms and state machines of the agent platform and its
dashboard, and proves what they keep over all inputs and all runs:

- the Discord channel's text codecs: the message splitter, the attachment-marker parser, the base64
  decoder behind the bot's user id, the rejection sampler, and the mention stripper
  (`Splitter`, `Markers`, `Base64`, `Sampler`, `Mentions`, over `Text` and `Utf8`);
- the dashboard's server-sent-events consumer (`Sse`, and `SseSafety` for its runs) and WebSocket RPC
  client (`WsClient` is the client, `WsSafety` its runs), which share one reconnect delay (`Backoff`);
- the dashboard's chat cache (`ChatCache`; `ChatCacheProofs`, `ChatCacheTies` and `ChatCacheRecency` for
  its runs);
- Mochat's message deduplication (`Dedup`), the dashboard's TOML printer (`Toml`) and the harness's
  slug builder (`Slug`).

Code that works by loops or by changing fields is modelled as methods and classes, each proved against
a specification function; the lemmas are about those functions. Strings are sequences of Unicode
scalar values. Where Rust slices a string at a byte offset, so does the splitter, and every slice
carries the obligation that the offset is a character boundary of the UTF-8 bytes. Clocks, random
draws, network reads, timers and fresh call ids are parameters or events chosen by the environment.

Sharper than, or different from, what the code's comments suggest:

- **Splitter.** n characters take at most 1 + 2(n − 1)/2001 chunks, and for every n above 2000 some
  message takes that many. A comment in the code says that a newline is passed over when it is "too
  close to the end"; the condition passes over a newline in the first half of the window.
- **Mentions.** Stripping is complete exactly when the bot's id contains no space. With a space in the
  id, a tag nested in another leaves a whole tag behind.
- **Base64.** A single left-over character is dropped without being looked up, and padding in the middle
  of the input is no error.
- **SSE.** Only two newlines in a row close a frame; a CR LF stream delivers nothing. An event handler that
  throws ends the stream: the rest of what was read is dropped. A stream that a second `connect` overtook
  outlives a `disconnect`.
- **WebSocket.** Sockets and reconnect timers never overlap exactly when the owner never calls `connect`
  while a socket is unclosed, nor leaves one unclosed when its close callback returns and a reconnect
  follows. A call whose message cannot be serialised is rejected at once and yet stays in the table until
  a response, its timer, a close or a disconnect removes it. A `disconnect` is final exactly when every
  armed reconnect timer is the one the client remembers: two overlapping sockets that close in turn arm two timers, and the forgotten one
  reconnects after a `disconnect`. The dashboard page connects once, which suffices for both. A frame
  that is the JSON value `null` is parsed and then goes nowhere; no other frame is lost.
- **Chat cache.** The comment promises at most 20 sessions. Over a set of session keys that holds exactly
  when the set lacks the empty key or has at most 20 keys: nothing is evicted as long as the session keyed
  by the empty string is the oldest, and reading that session lets eviction resume. Recency decides
  eviction under a clock that always advances; among sessions used in the same millisecond the one that
  entered the cache first goes first, even if it was read last. For a clock that never runs back, the cache
  is the recency list in all runs over given stamps exactly when no two of them are equal from the second
  on, except among the last 20.
- **TOML.** Values read back exactly when they hold no control character other than tab; the printer
  does not escape those.
- **Slug.** The 48-character limit is exceeded exactly when it would fall after a hyphen or inside the lower
  case of one character: by one in ASCII, by two for U+0130, whose lower case is two characters. Slugging a
  slug changes nothing exactly when no such character was taken from the input.

## Model

| member | source | states |
|---|---|---|
| Splitter.SplitMessage | crates/adapters/channels/src/discord.rs:360-404 | the byte-offset loop computes the chunk list of the specification, cutting only at character boundaries |
| Splitter.ChunkEnd | crates/adapters/channels/src/discord.rs:371-399 | the offset chosen is a UTF-8 character boundary, and as many characters lie before it as the first chunk should have |
| Splitter.BreakEnd | crates/adapters/channels/src/discord.rs:378-399 | the three kinds of break: each offset, `pos + 1` included, is a character boundary of the remaining text |
| Utf8.BoundaryIffPrefix | crates/adapters/channels/src/discord.rs:379-402 | a byte offset is safe to slice at exactly when it is where some prefix of the characters ends |
| Splitter.SplitRebuilds | crates/adapters/channels/src/discord.rs:360-404 | chunks concatenate to the message, none is longer than 2000 characters, and only the empty message has an empty chunk |
| Splitter.WholeIff | crates/adapters/channels/src/discord.rs:360-363 | a message is sent whole, as one chunk, exactly when it has at most 2000 characters |
| Splitter.BreaksAreJustified | crates/adapters/channels/src/discord.rs:365-399 | of every message, each chunk but the last starts where those before it end, with more than 2000 characters left, and its window justifies its length: the last newline, past character 1000; else the last space, with no such newline; else 2000 characters with neither |
| Splitter.EveryBreakHasReason | crates/adapters/channels/src/discord.rs:378-399 | the same of the chunks of any remaining text |
| Splitter.HardBreaksAreForced | crates/adapters/channels/src/discord.rs:395-398 | a non-final chunk ending in neither space nor newline has exactly 2000 characters, no space, and no newline in its second half |
| Splitter.AfterSpaceBreak | crates/adapters/channels/src/discord.rs:386-394 | after a space break or a hard break, the next break lies beyond the window just searched |
| Splitter.ConsecutiveChunks | crates/adapters/channels/src/discord.rs:360-404 | two consecutive chunks total at least 1002 characters, and at least 2001 unless the first ends in a newline |
| Splitter.ConsecutivePieces | crates/adapters/channels/src/discord.rs:360-404 | the same of the chunks of a whole message |
| Splitter.ChunkCount | crates/adapters/channels/src/discord.rs:360-404 | amortised bound on the number of chunks of a text of n characters: 2001(chunks − 1) ≤ 2(n − 1) |
| Splitter.ChunkCountIsTight | crates/adapters/channels/src/discord.rs:360-404 | for every odd number of chunks there is a text that meets the bound with equality |
| Splitter.Attained | crates/adapters/channels/src/discord.rs:360-404 | for every n above 2000 there is a message of n characters that is split into 1 + ⌊2(n − 1)/2001⌋ chunks, the most there can be |
| Splitter.SplitCount | crates/adapters/channels/src/discord.rs:360-404 | the same for whole messages, and the rougher 2⌊n/1002⌋ + 1 |
| Markers.ParseAttachmentMarkers | crates/adapters/channels/src/discord.rs:233-278 | the cursor loop returns the trimmed kept text and the lifted attachments of the scan |
| Markers.LiftSpans | crates/adapters/channels/src/discord.rs:237-271 | the loop with its exits: what it gathered, with the text after the cursor, makes up the whole scan |
| Markers.FirstSpanIsFirst | crates/adapters/channels/src/discord.rs:237-246 | a span found is the first '[' and the first ']' after it; when none is found there is no such pair |
| Markers.FromMarkerIff | crates/adapters/channels/src/discord.rs:176-187 | the kind read is the one whose name, one of eight, is spelled in any case between blanks; any other text is no kind |
| Markers.ParseMarkerIff | crates/adapters/channels/src/discord.rs:243-259 | bracketed text is a marker exactly when a name of its kind comes before the first colon and something not blank after it, which, trimmed, is the target |
| Markers.Conservation | crates/adapters/channels/src/discord.rs:233-278 | the message is the in-order interleaving of kept text, unrecognised spans and lifted spans |
| Markers.SpansAreMarkers | crates/adapters/channels/src/discord.rs:243-268 | every span is bracketed, holds no earlier ']', and is lifted exactly when its inside parses to an attachment |
| Markers.KeptIsMarkerFree | crates/adapters/channels/src/discord.rs:233-278 | lifting markers out of a text never brings a new one together |
| Markers.Idempotence | crates/adapters/channels/src/discord.rs:233-278 | parsing the cleaned text again returns it unchanged, with no attachments |
| Markers.InnerParses | crates/adapters/channels/src/discord.rs:243-259 | a name that spells a kind, a colon and a non-blank target without ']' parse to that kind and the trimmed target |
| Markers.PrintParses | crates/adapters/channels/src/discord.rs:233-278 | text pieces interleaved with printed markers parse back to exactly those attachments, in order, and exactly that text; pieces may hold bracketed text that is no marker, but only the last may leave a bracket open |
| Markers.CompleteAppends | crates/adapters/channels/src/discord.rs:233-278 | text without a marker and without an open bracket is kept whole, and what follows it is parsed as if it stood alone |
| Base64.Base64Decode | crates/adapters/channels/src/discord.rs:488-522 | the loop over groups of four, with its early return and its early end, computes the decoder function |
| Base64.NoBitLost | crates/adapters/channels/src/discord.rs:512-518 | for any four sextets, canonical or not, the shifted and masked values are the three bytes of their 24 bits: every cast fits |
| Base64.GroupIs | crates/adapters/channels/src/discord.rs:512-518 | a group of any four digits decodes to the three bytes of its 24 bits, the second unless the third character is padding and the third unless the fourth is |
| Base64.AlphabetByRange | crates/adapters/channels/src/discord.rs:350 | the alphabet of section 4 of RFC 4648, digit by digit, and its padding |
| Base64.GroupArithmetic | crates/adapters/channels/src/discord.rs:512-518 | on the digits of three bytes they are those three bytes |
| Base64.DecodeOfEncode64 | crates/adapters/channels/src/discord.rs:488-519 | re-padding and decoding inverts the encoder of section 4 of RFC 4648 on all byte strings, padded or not |
| Base64.DecodeTextOfEncoded | crates/adapters/channels/src/discord.rs:488-522 | decoding the encoding of any bytes yields the text they are the UTF-8 of, and nothing when they are not UTF-8 |
| Base64.RejectsExactly | crates/adapters/channels/src/discord.rs:498-510 | decoding fails exactly when a byte of some complete group is neither padding nor in the alphabet |
| Base64.DanglingByteIgnored | crates/adapters/channels/src/discord.rs:489-501 | one character past complete groups, whatever it is, changes nothing |
| Base64.BotUserIdFromToken | crates/adapters/channels/src/discord.rs:56-60 | decodes what precedes the first dot |
| Base64.TokenYieldsId | crates/adapters/channels/src/discord.rs:56-60 | a token made of an encoded id, alone or followed by a dot and anything, yields exactly that id |
| Utf8.DecodeExact | crates/adapters/channels/src/discord.rs:521 | the byte decoder accepts exactly the encodings of strings and inverts the encoder |
| Utf8.EncodedBits | crates/adapters/channels/src/discord.rs:521 | how the bytes carry the bits of a character, by length, as in section 3 of RFC 3629 |
| Text.UnicodeBlankIff | crates/adapters/channels/src/discord.rs:277 | what `trim` takes for blank in Rust: the 25 white-space characters |
| Text.JsBlankIff | web/src/lib/sse.ts:144-147 | what `trim` takes for blank in ECMAScript |
| Sampler.PickUniformIndex | crates/adapters/channels/src/discord.rs:406-418 | the loop returns at the first accepted draw, that draw modulo the length, and keeps looping exactly while none is accepted |
| Sampler.ExactlyUniform | crates/adapters/channels/src/discord.rs:406-418 | each index is chosen by exactly ⌊(2^64 − 1)/len⌋ accepted draws |
| Sampler.LoopIsUniform | crates/adapters/channels/src/discord.rs:406-418 | among all lists of n draws, every index is returned by the loop on the same number of lists |
| Sampler.DrawListsAreAll | crates/adapters/channels/src/discord.rs:411-412 | those lists are exactly the lists of n 64-bit values |
| Sampler.MostDrawsAccepted | crates/adapters/channels/src/discord.rs:409-414 | the threshold exceeds half of 2^64 − 1, and between 1 and len values are rejected |
| Mentions.ContainsBotMention | crates/adapters/channels/src/discord.rs:453-456 | true exactly when one of the two tags occurs somewhere |
| Mentions.NormalizeIncomingContent | crates/adapters/channels/src/discord.rs:458-484 | the branches and the replacing loop compute the normal form, or nothing |
| Mentions.SpacesCreateNothing | crates/adapters/channels/src/discord.rs:473-475 | joining pieces with spaces creates no occurrence of a text without spaces |
| Mentions.OutputIsClean | crates/adapters/channels/src/discord.rs:458-484 | with `mention_only` and no space in the id, what is returned is non-empty, trimmed and free of both tags |
| Mentions.PiecesSurvive | crates/adapters/channels/src/discord.rs:458-484 | a message of tag-free pieces with tags between them, plain or nick, comes back as exactly those pieces with a space for each tag, trimmed, and as nothing when that is blank; the id holds no '<', '>' or space |
| Mentions.MentionRequired | crates/adapters/channels/src/discord.rs:467-469 | with `mention_only` nothing is returned for a message without a mention |
| Mentions.CompleteIffNoSpace | crates/adapters/channels/src/discord.rs:472-476 | that holds for all messages exactly when the id contains no space |
| Mentions.NestedSurvives | crates/adapters/channels/src/discord.rs:472-476 | for an id with a space, a message whose output still is a plain tag |
| Mentions.PassThrough | crates/adapters/channels/src/discord.rs:463-484 | without `mention_only` only blank ends are removed, and only blank messages are dropped |
| Sse.SseClient.ConsumeStream | web/src/lib/sse.ts:105-136 | the read loop hands on the events of the frames fed, through the JSON stage, until the event handler throws; it returns the text carried at the end, reports one error for a failed read or a handler that threw, and arms a reconnect timer unless aborted |
| Sse.SseClient.ParseEvents | web/src/lib/sse.ts:121-123 | the loop over complete frames stops at the first event whose handler throws |
| Sse.SseClient.ParseEvent | web/src/lib/sse.ts:138-164 | the line loop makes at most one event, of the last name and the joined data; JSON with its own `type` keeps it, other JSON gets the name, and what is not JSON is passed on as name and text |
| Sse.HandedPrefix | web/src/lib/sse.ts:121-132 | what is handed on is a prefix of the events: all of them, or up to and with the first at which the handler throws |
| Sse.SseClient.constructor | web/src/lib/sse.ts:43-49 | starts at the base delay with no attempt and no timer |
| Sse.SseClient.Connect | web/src/lib/sse.ts:52-55 | the whole new state: the remembered timer is stopped, and a new attempt goes on beside any earlier one |
| Sse.SseClient.HandleResponse | web/src/lib/sse.ts:77 | the whole new state: the delay returns to the base |
| Sse.SseClient.HandleFailure | web/src/lib/sse.ts:82-88 | a failed fetch reports an error and arms a timer, an aborted one does neither |
| Sse.SseClient.Disconnect | web/src/lib/sse.ts:92-99 | the whole new state: the remembered timer is stopped and the attempt whose controller is held is aborted |
| Sse.SseClient.ScheduleReconnect | web/src/lib/sse.ts:170-177 | arms a new timer with the current delay and remembers it, unless closed on purpose or told not to reconnect; an earlier timer stays live |
| Sse.SseClient.HandleTimer | web/src/lib/sse.ts:173-176 | the whole new state: the delay doubles up to the cap and the client connects |
| Sse.SseClient.ClearReconnectTimer | web/src/lib/sse.ts:179-184 | stops the remembered timer, and no other, and forgets it |
| SseSafety.DisciplineSuffices | web/src/lib/sse.ts:52-89 | when every `connect` is made while no attempt goes on, there is at most one attempt or one live timer, never both, the client holds its controller or remembers it, and the timer was armed with the current delay |
| SseSafety.ExclusiveIffDisciplined | web/src/lib/sse.ts:52-89 | attempts and timers never overlap in a run exactly when the owner never connects while an attempt goes on |
| SseSafety.DisconnectFinalIff | web/src/lib/sse.ts:92-99 | after any run, nothing after `disconnect` other than another `connect` starts an attempt exactly when every live timer is the one the client remembers |
| SseSafety.DisconnectSilencesIff | web/src/lib/sse.ts:92-99 | `disconnect` ends all attempts exactly when the only one that goes on is that of the controller held |
| SseSafety.DisciplinedDisconnect | web/src/lib/sse.ts:92-99 | for an owner who connects only while no attempt goes on, it does both |
| SseSafety.ConnectingTwice | web/src/lib/sse.ts:52-99 | two connects by hand: the first stream outlives a `disconnect`, and so does the first timer when both streams have ended |
| SseSafety.DelayClosedForm | web/src/lib/sse.ts:170-177 | in every run the delay is the base doubled once per timer fired since the last successful response, capped |
| SseSafety.EndArmsTimer | web/src/lib/sse.ts:170-177 | after any run, when an attempt ends exactly one more timer is armed, with that delay, and remembered; none if the owner has disconnected since the last connect or reconnecting is off |
| SseSafety.TimerConnects | web/src/lib/sse.ts:173-176 | a timer that fires starts exactly one more attempt |
| SseSafety.ClosedIff | web/src/lib/sse.ts:53-93 | the client is marked closed on purpose exactly when nothing has connected since the last `disconnect` |
| Sse.ChunkInvariance | web/src/lib/sse.ts:105-136 | for every way of cutting the text into reads, the frames parsed and the final buffer are those of one leftmost split of the whole text |
| Sse.FrameParses | web/src/lib/sse.ts:138-164 | a printed frame (any mix of names, data and other lines) parses to its last name and its trimmed data lines joined, or to nothing when it has no data |
| Sse.StreamSplits | web/src/lib/sse.ts:115-119 | a printed stream splits into exactly its frames, with nothing left over |
| Sse.EndToEnd | web/src/lib/sse.ts:105-164 | any list of frames, printed and then cut arbitrarily, reaches the JSON stage as exactly the events with data, in order, and the buffer ends empty |
| Sse.ServerToHandler | web/src/lib/sse.ts:105-164 | from the server to the handler: for any frames, printed and cut arbitrarily, the handler is called for the events with data, in order, once each, until it throws; JSON with a `type` of its own comes with that, other JSON with the event's name, and other text as it is |
| Sse.NothingDeliveredIff | web/src/lib/sse.ts:117-119 | no frame is completed exactly when the text has no two newlines in a row; all text then stays in the buffer |
| Sse.CrlfDeliversNothing | web/src/lib/sse.ts:117-119 | when every newline follows a carriage return no frame is ever completed: all text stays in the buffer |
| Backoff.ClosedForm | web/src/lib/sse.ts:170-177 | for every sequence of opens and timer fires, the delay that starts at the base, doubles up to the cap and is reset is the base doubled once per fire since the last open, capped |
| Backoff.DelayInRange | web/src/lib/ws.ts:198-205 | with base ≤ cap the delay stays between them |
| WsClient.WebSocketClient.constructor | web/src/lib/ws.ts:68-77 | starts in the initial state, at the base delay |
| WsClient.WebSocketClient.Open | web/src/lib/ws.ts:80-96 | `connect`: the whole new state, with one more connecting socket and no remembered timer |
| WsClient.WebSocketClient.HandleOpen | web/src/lib/ws.ts:98-101 | the whole new state: the delay returns to the base |
| WsClient.WebSocketClient.HandleMessage | web/src/lib/ws.ts:103-126 | the whole new state: a frame that is not JSON changes nothing, `null` is parsed and dropped, a response to a pending call settles it and stops its timer, any other frame goes to the message handler |
| WsClient.WebSocketClient.RejectPending | web/src/lib/ws.ts:129-134 | the loop over the table, in any order, settles every pending call, stops exactly its timers and empties the table |
| WsClient.WebSocketClient.HandleClose | web/src/lib/ws.ts:128-138 | the whole new state, whatever the close callback calls on the client: pending calls rejected, then those calls, then a reconnect armed unless the client is closed on purpose by then |
| WsClient.WebSocketClient.Call | web/src/lib/ws.ts:149-171 | `rpc`: rejected at once unless the socket is open, otherwise pending with a timer of its own, and in addition rejected at once when its message cannot be serialised |
| WsClient.WebSocketClient.HandleTimer | web/src/lib/ws.ts:157-160 | a fired call timer forgets and rejects its call; a fired reconnect timer doubles the delay and connects |
| WsClient.WebSocketClient.Close | web/src/lib/ws.ts:174-187 | `disconnect`: the whole new state |
| WsClient.WebSocketClient.ScheduleReconnectTimer | web/src/lib/ws.ts:198-205 | arms a timer with the current delay, or nothing |
| WsClient.WebSocketClient.ClearReconnectTimer | web/src/lib/ws.ts:207-212 | stops the remembered timer and forgets it |
| WsSafety.ExactlyOnce | web/src/lib/ws.ts:103-187 | in every interleaving the calls in the tables are those issued and each pending one has its own live timer; a call that could be sent is either pending or settled by exactly one attempt; one whose message could not be serialised is rejected at once, and is pending as well until exactly one more attempt |
| WsSafety.UnsentIsBoth | web/src/lib/ws.ts:162-169 | a run with a call that is pending and rejected at once |
| WsSafety.PendingFate | web/src/lib/ws.ts:103-187 | exactly which events settle a pending call, and how: its own response, its own timer, any socket's close, a disconnect; under all others it keeps waiting with the same timer and no attempt is made |
| WsSafety.FirstOutcomeWins | web/src/lib/ws.ts:103-187 | the first such event decides for good, unless the call was rejected already as not serialisable: no later response, timeout, close or disconnect changes what the caller sees |
| WsSafety.SeenIsFinal | web/src/lib/ws.ts:103-187 | what the caller of any call has seen, it sees in every continuation |
| WsSafety.FrameConservation | web/src/lib/ws.ts:103-126 | in every run the parsed frames other than `null` are, as a multiset, those handed to the message handler plus one for each answered call; an answering frame names its call and rejects it exactly when it carries an error |
| WsSafety.FramesConservedIff | web/src/lib/ws.ts:103-126 | no parsed frame is lost exactly when none was `null` |
| WsSafety.NullIsLost | web/src/lib/ws.ts:105-125 | a run that loses one |
| WsSafety.DisciplineSuffices | web/src/lib/ws.ts:80-143 | when no `connect` is made over an unclosed socket and no close callback leaves one before a reconnect, there is at most one unclosed socket or one armed reconnect timer, never both, and the armed timer is the remembered one |
| WsSafety.ExclusiveIffDisciplined | web/src/lib/ws.ts:80-143 | that holds throughout a run exactly under that discipline |
| WsSafety.ReturnOverlaps | web/src/lib/ws.ts:136-137 | a close callback that leaves a socket unclosed before a reconnect always leaves both |
| WsSafety.ConnectOverlaps | web/src/lib/ws.ts:80-96 | connecting while a socket is unclosed always leaves two |
| WsSafety.ConnectOnceIsDisciplined | web/src/pages/AgentChat.tsx:387-392 | connecting once, as the page does, is safe whatever else happens before or after |
| WsSafety.DisconnectFinalIff | web/src/lib/ws.ts:174-212 | after any run, no event after `disconnect` other than another `connect` opens a socket, late close events included, exactly when every reconnect timer armed at that moment is the one the client remembers |
| WsSafety.ForgottenTimerReconnects | web/src/lib/ws.ts:198-212 | a run that fails it: two connects, both sockets close, and the first timer outlives the `disconnect` |
| WsSafety.NoSocketAfterDisconnect | web/src/lib/ws.ts:174-212 | for an owner under that discipline, a `disconnect` is final |
| WsSafety.DisconnectClosesIff | web/src/lib/ws.ts:183-186 | after any run, `disconnect` leaves no socket connecting or open exactly when every such socket was the one the client holds; it then holds none |
| WsSafety.DisciplineHolds | web/src/lib/ws.ts:80-143 | under the discipline the client always holds the socket that is connecting or open |
| WsSafety.DisciplinedDisconnect | web/src/pages/AgentChat.tsx:387-392 | so for such an owner `disconnect` closes it, and is final |
| WsSafety.CallWaitsIff | web/src/lib/ws.ts:149-162 | a call that can be sent waits exactly when the socket held is open, under the discipline when any is, and is otherwise rejected as not connected |
| WsSafety.DelayClosedForm | web/src/lib/ws.ts:98-101 | in every run, disciplined or not, the delay is the base doubled once per reconnect timer fired since the last open, capped |
| WsSafety.ReturnArmsTimer | web/src/lib/ws.ts:136-138 | after any run, when a close callback returns exactly one more timer is armed, with that delay, and remembered; none if the owner has disconnected since the last connect or reconnecting is off |
| WsSafety.TimerConnects | web/src/lib/ws.ts:201-204 | a reconnect timer that fires opens exactly one more socket, which the client holds |
| WsSafety.ClosedIff | web/src/lib/ws.ts:81-175 | the client is marked closed on purpose exactly when nothing has connected since the last `disconnect` |
| ChatCache.ChatStore.ScanOldest | web/src/hooks/useChatStore.ts:33-40 | the scan with running minima finds the first key, in insertion order, with the least access time |
| ChatCache.ChatStore.EvictLRU | web/src/hooks/useChatStore.ts:31-45 | the whole new state: above 20 sessions that key goes from cache and drafts, unless it is empty |
| ChatCache.ChatStore.GetCachedMessages | web/src/hooks/useChatStore.ts:49-54 | returns the stored messages and only stamps the access time |
| ChatCache.ChatStore.SetCachedMessages | web/src/hooks/useChatStore.ts:56-71 | the whole new state: the last 200 messages, then eviction |
| ChatCache.ChatStore.AppendCachedMessage | web/src/hooks/useChatStore.ts:73-85 | the whole new state, for a new and for an existing session |
| ChatCache.ChatStore.DeleteCachedSession | web/src/hooks/useChatStore.ts:87-90 | session and draft are gone |
| ChatCache.ChatStore.ClearCachedSession | web/src/hooks/useChatStore.ts:92-98 | an existing session is emptied, stamped and keeps its metadata; a missing one is not created |
| ChatCache.ChatStore.SetSessionDraft | web/src/hooks/useChatStore.ts:112-118 | an empty draft is removed, any other stored |
| ChatCache.ChatStore.ClearSessionDraft | web/src/hooks/useChatStore.ts:120-122 | the draft is removed and nothing else changes |
| ChatCacheRecency.RecencyIff | web/src/hooks/useChatStore.ts:31-98 | for every clock that never runs back: all runs over its stamps, with non-empty keys, leave exactly the sessions of the recency list capped at 20, with their metadata, drafts and the ends of their logs, if and only if no stamp from the second on equals the next one, except among the last 20 |
| ChatCacheRecency.RecencyHolds | web/src/hooks/useChatStore.ts:31-98 | the same for one run and its prefixes: recency decides although stamps may be tied |
| ChatCacheRecency.RecencyFails | web/src/hooks/useChatStore.ts:33-40 | for any other stamps, a run that drops the session just read where the recency list drops another |
| ChatCacheProofs.RunAgrees | web/src/hooks/useChatStore.ts:31-98 | under a strictly increasing clock and non-empty keys, the cache also has the order of the list in its access times |
| ChatCacheRecency.StrictClockTells | web/src/hooks/useChatStore.ts:31-98 | a clock that always advances is one of those under which recency decides |
| ChatCacheProofs.ReadsAgree | web/src/hooks/useChatStore.ts:49-54 | after such a run a read returns the last 200 messages of the session's whole log, or nothing when the list lacks it |
| ChatCacheProofs.TrimmedIncrementally | web/src/hooks/useChatStore.ts:80-83 | trimming after each append keeps what trimming the whole log would |
| ChatCacheProofs.EvictRepresents | web/src/hooks/useChatStore.ts:31-45 | the scan evicts the head of the recency list |
| ChatCacheProofs.WrittenSurvives | web/src/hooks/useChatStore.ts:56-85 | under a clock that never runs back, even one that stands still, the session just inserted is not the one evicted |
| ChatCacheProofs.NamedRunsAreCapped | web/src/hooks/useChatStore.ts:31-45 | with non-empty keys at most 20 sessions are cached, under any clock |
| ChatCacheProofs.CappedIff | web/src/hooks/useChatStore.ts:31-45 | every run over a set of keys stays within 20 sessions exactly when the set lacks the empty key or has at most 20 keys |
| ChatCacheTies.RunRanks | web/src/hooks/useChatStore.ts:31-98 | under any clock and with any keys, every run leaves exactly the sessions, metadata, drafts and eviction order of a list sorted by last use and, on equal stamps, by entry into the cache |
| ChatCacheTies.ReadsRank | web/src/hooks/useChatStore.ts:49-54 | after any run a read returns the last 200 messages of the log of a session in that list, and nothing for another key |
| ChatCacheTies.ReadsEndOfLog | web/src/hooks/useChatStore.ts:49-85 | after any run, what a read returns is the end of the session's whole log: 200 messages, or all of a shorter log |
| ChatCacheTies.AppendIsRead | web/src/hooks/useChatStore.ts:73-85 | after any run and an append, the session, if cached, ends in the message appended |
| ChatCacheTies.TiesDefeatRecency | web/src/hooks/useChatStore.ts:33-40 | in a full cache used on one stamp, the session that entered first is evicted by the next to enter, although it was just read |
| ChatCacheTies.EvictsUnlessEmptyKey | web/src/hooks/useChatStore.ts:31-45 | above 20 sessions nothing is evicted exactly while the session with the empty key is the oldest |
| ChatCacheTies.ReadingResumesEviction | web/src/hooks/useChatStore.ts:49-54 | reading that session lets the next one to enter evict another |
| ChatCacheRecency.EmptyKeyRead | web/src/hooks/useChatStore.ts:31-71 | a run of 23 operations in which that happens |
| ChatCacheProofs.EmptyKeyDefeatsCap | web/src/hooks/useChatStore.ts:41 | a run, under a strict clock, that caches as many sessions as there are keys |
| Dedup.MochatDedup.IsDuplicate | crates/adapters/channels/src/mochat.rs:50-70 | verdict and new set, for whichever half is evicted; empty ids are never duplicates nor remembered |
| Dedup.Accounting | crates/adapters/channels/src/mochat.rs:50-70 | after F acceptances and E evictions the set holds F − 5000E ids, at most 10000, and F alone determines E, whichever halves were evicted |
| Dedup.AcceptedPerEviction | crates/adapters/channels/src/mochat.rs:50-70 | an id was accepted once per eviction of it, and once more if it is in the set: at most E + 1 times |
| Dedup.DuplicateWasSeen | crates/adapters/channels/src/mochat.rs:57-59 | a duplicate verdict implies that an earlier call accepted the id |
| Dedup.ExactIff | crates/adapters/channels/src/mochat.rs:50-70 | for every F, all verdicts given after F acceptances are exact, in every run and for whichever halves are evicted, exactly when F is at most 10000 |
| Dedup.ExactUntilFull | crates/adapters/channels/src/mochat.rs:50-70 | up to the first eviction an id is a duplicate exactly when it was accepted before |
| Toml.EscapeIsOnePass | web/src/lib/ipc-config-gen.ts:24-26 | the two replace-alls equal one pass that escapes character by character |
| Toml.QuoteReadsBack | web/src/lib/ipc-config-gen.ts:24-26 | a TOML 1.0.0 basic-string reader consumes exactly the printed literal and returns the string, exactly when it holds no control character other than tab; otherwise it rejects |
| Toml.ListReadsBack | web/src/lib/ipc-config-gen.ts:28-31 | reading a printed list returns the trimmed items, whatever commas, brackets, quotes or backslashes they hold, under the same exact condition |
| Toml.EmitFields | web/src/lib/ipc-config-gen.ts:90-104 | the field loop, with its branches, emits the lines of the specification |
| Toml.LineIff | web/src/lib/ipc-config-gen.ts:90-104 | a field has a line exactly when it has a value which, for a port that is no list, is a number |
| Toml.LinesInOrder | web/src/lib/ipc-config-gen.ts:90-104 | the lines are those of the fields that have one, once each, in the order of the fields |
| Toml.ListMeans | web/src/lib/ipc-config-gen.ts:94 | comma-free pieces joined by commas stand for those that are not blank, without blank ends, in order |
| Toml.ListFieldReadsBack | web/src/lib/ipc-config-gen.ts:93-95 | a list field's line reads back as what the pieces of its value stand for, exactly when they hold no control character other than tab |
| Toml.TextFieldReadsBack | web/src/lib/ipc-config-gen.ts:101-102 | a text field's line reads back as exactly the value typed in, under the same condition |
| Toml.PortReadsBack | web/src/lib/ipc-config-gen.ts:96-100 | the port's line reads back as the bare number |
| Slug.SlugComponent | dev/gateway-chat-harness/src/main.rs:847-872 | the loop and the final trim compute the hyphenated words, cut, or the fallback |
| Slug.Build | dev/gateway-chat-harness/src/main.rs:848-865 | the loop with its pending separator and early exit builds the hyphenated words of the whole text, cut at the first place past 48 that tears nothing |
| Slug.CutOfKept | dev/gateway-chat-harness/src/main.rs:862-864 | the cut is exactly what the characters read before the exit hyphenate to |
| Slug.SlugIsNormal | dev/gateway-chat-harness/src/main.rs:847-872 | every slug is non-empty runs of lower-case alphanumerics, with the marks of their lower cases, joined by single hyphens, and nothing past the 48th character could be cut off without tearing |
| Slug.SlugOfWords | dev/gateway-chat-harness/src/main.rs:847-872 | the slug of any text is its words in lower case with single hyphens between them: all of that, or its first part that has at least 48 characters and tears nothing; and the fallback for a text without a word |
| Slug.OverLimitIff | dev/gateway-chat-harness/src/main.rs:862-864 | a slug is longer than 48 characters exactly when the hyphenated words are and the 48th character is a hyphen or the 49th a mark |
| Slug.LimitPlusWidth | dev/gateway-chat-harness/src/main.rs:862-864 | the excess is at most the length of the longest lower case |
| Slug.PushedTogether | dev/gateway-chat-harness/src/main.rs:853-864 | after 47 letters, a separator and any alphanumeric exceed the limit by all of its lower case |
| Slug.FortyNine | dev/gateway-chat-harness/src/main.rs:853-864 | an ASCII slug of 49 characters |
| Slug.FixedPoints | dev/gateway-chat-harness/src/main.rs:847-872 | the texts that slugging leaves unchanged are exactly the non-empty, fitting normal forms without marks |
| Slug.IdempotentIff | dev/gateway-chat-harness/src/main.rs:847-872 | slugging a slug changes nothing exactly when every character taken from the input has a single character as its lower case |
| Slug.CapitalDottedI | dev/gateway-chat-harness/src/main.rs:857-859 | U+0130: its slug loses its combining dot when slugged again, and it makes a slug of 50 characters |
| Slug.SlugKeepsPrefix | dev/gateway-chat-harness/src/main.rs:847-872 | unless the input has no alphanumeric, deleting the slug's hyphens leaves exactly the lower-cased alphanumerics of a prefix of the input |
| Slug.FallbackWithoutLetters | dev/gateway-chat-harness/src/main.rs:866-871 | without any alphanumeric the fallback is returned |
| Slug.AsciiIsRegular | dev/gateway-chat-harness/src/main.rs:852-859 | the ASCII letters and digits meet what the slug results ask of an alphabet |
| Slug.DottedIsRegular | dev/gateway-chat-harness/src/main.rs:852-859 | so do they with U+0130 added |

## Left out

- Slug.SlugComponent: the alphabet is a parameter. The Unicode tables are not modelled; what is asked of them is that an alphanumeric's lower case is one alphanumeric that is its own lower case, followed by nothing but marks that are not alphanumeric, and that blanks and the hyphen are not alphanumeric. ASCII, and ASCII with U+0130, are proved to qualify.
- Sse.SseClient.ParseEvent: `JSON.parse` and the assignment of a `type` to its result are one parameter, which says for each text whether an object comes out and with what `type`. `TextDecoder` is left out: reads are decoded text.
- Sse.SseClient.Connect: the request itself is left out; an attempt is a number that goes on until it ends or is aborted. Connect and error callbacks that throw or call back into the client are not modelled.
- WsClient.WebSocketClient.HandleMessage: a frame is reduced to the fields the client reads; a frame whose message handler throws counts as handed to it.
- WsClient.WebSocketClient.Call: a call is named by its id, fresh and non-empty, whether or not it gets as far as using it. `send` itself does not fail on an open socket.
- WsClient.WebSocketClient.HandleTimer: a call's timer fires at any time after the call; how long its timeout is, is not modelled.
- WsClient.WebSocketClient.HandleOpen: `onOpen` and `onMessage` end their handlers, so what they call on the client is the next event.
- ChatCache.ChatStore.GetCachedMessages: message arrays are values, so a caller's later change to the array it passed or received is not modelled.
- Toml.QuoteReadsBack: the reader covers basic strings and arrays of them, without comments or multi-line strings; the rest of the configuration text, fixed lines and a few quoted fields, is left out.
- Toml.EmitFields: `parseInt` and printing its result are one parameter.
- Markers.ParseAttachmentMarkers: offsets are counted in characters; the source slices next to one-byte brackets only. Label and MIME type, always absent here, are left out.
- Sampler.PickUniformIndex: the random stream is a finite list of draws, of any length; that the generator itself is uniform is outside the program.
- Strings with lone surrogates, which JavaScript allows, are not modelled.
- `getCachedMeta` and `getSessionDraft`, the emoji URL encoder, the allowlist checks and the attachment-kind tables: true but easy.
- HTTP, WebSocket and fetch transport, tasks, health checks and process spawning: only their events appear.
- The call sessions of `clawdtalk.rs`: their transition functions are in a domain service that is not part of this model.
