# piot — a verified model of the control ring, name resolver, HTTP head codec and URL parser

piot is a small node-control daemon. Events enter a ring. The event handler turns each event into
commands. The orchestrator turns each command into an action. A worker runs the action, producing a
result. The result handler turns the result's operations back into events. Beside the ring sits a
name resolver: a thread that owns a name-to-address dictionary and serves insert and lookup messages.
The HTTP layer reads and writes HTTP/1.1 message heads from a 4096-byte socket buffer. `Url::parse`
splits a request path into segments and query parameters.

This project models those pieces in Dafny and proves what they promise:

- `Common`, `EventHandler`, `Orchestrating`, `ActionHandler`, `ResultHandler` and `Ring` model the
  four steps of the ring. Each step is a total function, or, where the source loops, a method proved
  against one. `Ring` composes the steps and proves what one lap produces.
- `Network` models the name resolver as a class whose `directory` field is a `map`. Its message loop
  is `Serve`, which is proved against the fold `ApplyAll` and the reply list `Replies`.
- `HttpCommon` models `src/http/common.rs`:
  - verbs and status codes;
  - creation of requests and responses with their standard headers;
  - serialisation to text and bytes;
  - the scan for the blank line that ends the head;
  - the parse of the start line and the header lines;
  - the rule that extracts the body from the buffer.
- `HttpRoundTrip` proves that a head written by `get_string`/`to_bytes` and placed in the buffer is
  read back by `create_from_buffer`/`from_stream`. Verb, route, status and version come back equal.
  Headers come back with upper-cased names. The content length and the body come back too.
- `UrlParsing` models `Url::parse` as a method, proved against the specification function `UrlOf`.
- `Text` holds the string machinery these share: Rust's `str::split`, ASCII upper-casing, decimal
  printing and `usize`/`i16` parsing, UTF-8 encoding and lossy decoding.

Modelling decisions:

- A `HashMap`'s iteration order is unspecified. `get_string` therefore takes an explicit `order`, a
  sequence listing every header name exactly once. The round trips hold for every such order.
- A Rust panic on the parse path is an explicit `Fault.Panic` error, not a precondition. It arises
  when a start line or status line splits into too few pieces for the field the source indexes, and
  (in HttpCommon.BodyRuleAsWritten) when the body start plus the Content-Length overflows `usize`.
  The other failures are `Fault.Error(message)`, carrying the source's own message.
- `usize` is 64 bits wide (`UsizeLimit`). `i16` parsing accepts an optional sign and at most the
  range of `i16`.
- The socket is not modelled. `create_from_buffer` takes the 4096-byte buffer it read.
  `HttpResponse::from_stream` also takes the count of bytes the read returned (`read`) and the
  buffer a second read would fill (`next`).
- `handle_action` returns a single `Test` operation for every action, `Run` included
  (src/orchestrating/action_handler.rs:3-9); the model follows the code.

## Model

| member | source | states |
|---|---|---|
| EventHandler.HandleEvent | src/events/event_handler.rs:4-24 | a Test event yields exactly one Test command with the event's id; a RunResult event yields no command |
| Orchestrating.ToAction | src/orchestrating/mod.rs:43-54 | the action keeps the command's id; Test, Run and ChangeNodeState correspond one to one, carrying the same payload |
| Orchestrating.ToCommandToAction | src/orchestrating/mod.rs:43-54 | translating a command to an action loses nothing: the command can be recovered |
| Orchestrating.ToActionToCommand | src/orchestrating/mod.rs:43-54 | every action is the translation of some command (the translation is onto) |
| Orchestrating.TranslatedAt | src/orchestrating/mod.rs:37-60 | translating a stream of commands keeps its length and order, and the k-th action comes from the k-th command with the same id |
| Orchestrating.Orchestrator.constructor | src/orchestrating/mod.rs:30-36 | a new orchestrator has no pending jobs |
| Orchestrating.Orchestrator.Receive | src/orchestrating/mod.rs:37-59 | receiving a command appends its action to the job queue and changes nothing else |
| Orchestrating.Orchestrator.DispatchAll | src/orchestrating/mod.rs:37-60 | the receive loop appends the translations of all commands, in arrival order |
| ActionHandler.HandleAction | src/orchestrating/action_handler.rs:3-9 | the result carries the action's id, success, the greeting message and a single Test operation |
| ActionHandler.HandleActionIgnoresPayload | src/orchestrating/action_handler.rs:3-9 | two actions with the same id give the same result, whatever their kind or payload |
| ResultHandler.HandleResult | src/results/result_handler.rs:4-22 | the loop over the operations emits exactly the events of the RaiseEvent operations, in order, and never more events than operations |
| ResultHandler.RaisedEventsAppend | src/results/result_handler.rs:4-22 | handling two batches of operations gives the events of the first batch, then those of the second |
| ResultHandler.RaisedEventsLength | src/results/result_handler.rs:4-22 | the event count is bounded by the operation count, with equality when every operation raises an event |
| ResultHandler.OnlyTestsRaiseNothing | src/results/result_handler.rs:4-22 | a result made only of Test operations raises no event |
| ResultHandler.RaisedEventsAreEmbedded | src/results/result_handler.rs:4-22 | an event is emitted if and only if a RaiseEvent operation carries it |
| ResultHandler.RaiseEventOrder | src/results/result_handler.rs:4-22 | an event raised between two batches is emitted between their events |
| Ring.CommandRaisesNothing | src/orchestrating/action_handler.rs:3-9 | any command, once translated and run, succeeds with its own id and raises no event |
| Ring.CommandsRaiseNothing | src/results/result_handler.rs:4-22 | a whole stream of commands raises no event |
| Ring.LapIsEmpty | src/events/event_handler.rs:4-24 | one lap of the ring, from an event through command, action and result back to events, produces no event: the ring quiesces |
| Ring.TestEventTrace | src/events/event_handler.rs:4-24 | the intermediate values of a Test event's lap: one Test command, its Test action, a successful greeting result with one Test operation, no events |
| Network.Lookup | src/io/network.rs:34-42 | the answer is present exactly when the name is in the dictionary, and is then its address |
| Network.NameResolver.constructor | src/io/network.rs:23-26 | the resolver starts with the dictionary it was given |
| Network.NameResolver.AddAddress | src/io/network.rs:30-32 | the name now maps to the new address, overwriting any earlier one, and every other name's lookup is unchanged |
| Network.NameResolver.GetAddress | src/io/network.rs:33-43 | the reply goes to the request's channel and holds the name's address, or nothing when the name is unknown |
| Network.NameResolver.Handle | src/io/network.rs:29-44 | one message changes the dictionary as Apply says and yields the replies Replies says |
| Network.NameResolver.Serve | src/io/network.rs:26-45 | the message loop leaves the dictionary equal to the fold of all messages and sends one reply per lookup, in order |
| Network.ApplyAllAppend | src/io/network.rs:26-45 | serving two batches of messages is serving the first, then the second from the resulting dictionary |
| Network.LookupsChangeNothing | src/io/network.rs:33-43 | lookup messages never change the dictionary |
| Network.OneReplyPerLookup | src/io/network.rs:33-43 | there is exactly one reply per lookup, sent to that lookup's channel |
| Network.EntryKept | src/io/network.rs:26-45 | messages that do not insert a name leave that name's lookup unchanged |
| Network.ReadAfterWrite | src/io/network.rs:29-43 | a lookup after an insert of a name, with no other insert of that name in between, replies the inserted address |
| Network.LastWriteWins | src/io/network.rs:30-32 | after two inserts of one name, a lookup replies the second address |
| Text.Split | src/main.rs:154 | splitting gives at least one piece, no piece contains the separator, and joining the pieces with it gives back the input |
| Text.Find | src/main.rs:162 | the result is the first occurrence of the pattern, or absent when there is none |
| Text.SplitJoin | src/main.rs:154 | splitting text built by joining separator-free pieces gives back those pieces |
| Text.SplitCharCount | src/main.rs:154 | splitting on a character gives one more piece than the text has occurrences of it |
| Text.Decimal | src/http/common.rs:193 | the decimal form of a number is all digits, has no leading zero, and denotes the number |
| Text.ParseUsizeDecimal | src/http/common.rs:256-259 | parsing the decimal form of a usize gives the number back |
| Text.ParseI16Decimal | src/http/common.rs:434-441 | parsing the decimal form of a number below 2^15 as i16 gives the number back |
| Text.UpperOfUpper | src/http/common.rs:55-68 | text with no lower-case ASCII letter is unchanged by upper-casing |
| Text.UpperIsUpper | src/http/common.rs:55-68 | upper-cased text has no lower-case ASCII letter, so upper-casing twice is upper-casing once |
| Text.Utf8Append | src/http/common.rs:297-301 | UTF-8 encoding a concatenation is concatenating the encodings |
| Text.DecodeUtf8Ascii | src/http/common.rs:210-229 | lossy decoding of the UTF-8 encoding of ASCII text gives back the text |
| UrlParsing.AddPairs | src/main.rs:175-181 | the query loop inserts the key and value of each piece that splits on "=" into exactly two, as the fold InsertPairs says |
| UrlParsing.Parse | src/main.rs:153-195 | the method computes UrlOf(value), and there is one part for each "/" in the path |
| UrlParsing.PartsCount | src/main.rs:161-189 | every segment after the first "/" contributes exactly one part |
| UrlParsing.LeadingTextDiscarded | src/main.rs:161 | the text before the first "/" is dropped, and the segments are the rest of the path |
| UrlParsing.PartsLength | src/main.rs:161-189 | the k-th part is the k-th segment with its query removed |
| UrlParsing.PlainSegmentKept | src/main.rs:185-187 | a segment without "?" is kept whole as a part |
| UrlParsing.QuestionSegmentPart | src/main.rs:162-169 | a segment with "?" contributes the text before its first "?" |
| UrlParsing.QueryAfterLastQuestion | src/main.rs:172-174 | the query is the text after the segment's last "?" |
| UrlParsing.LaterPairWins | src/main.rs:178-180 | a later key=value pair overrides an earlier value for the same key |
| UrlParsing.QueryKeysFromPairs | src/main.rs:175-181 | every query key was given as the key of a two-piece key=value pair |
| UrlParsing.TwoSegmentsOnePair | src/main.rs:153-195 | "/a/b?k=v" parses to the parts [a, b] and the query {k: v} |
| UrlParsing.RootExample | src/main.rs:215 | "/" parses to one empty part and no query |
| UrlParsing.QueryExample | src/main.rs:216 | "/home/test?k=v" parses to the parts [home, test] and the query {k: v} |
| HttpCommon.VerbStr | src/http/common.rs:70-82 | a verb's name is three to seven capital letters |
| HttpCommon.VerbFromStr | src/http/common.rs:55-68 | a verb is recognised exactly when the upper-cased text is its name; otherwise the error is "Unknown http verb" |
| HttpCommon.VerbRoundTrip | src/http/common.rs:55-82 | parsing a verb's name gives the verb back |
| HttpCommon.VerbCaseInsensitive | src/http/common.rs:55-68 | recognising a verb ignores case |
| HttpCommon.StatusFromCode | src/http/common.rs:86-96 | exactly the six codes 200, 400, 401, 404, 405, 500 are recognised, each as the status with that code; otherwise the error is "Unknown response type code" |
| HttpCommon.StatusRoundTrip | src/http/common.rs:86-107 | recognising a status's code gives the status back, and every code fits an i16 |
| HttpCommon.StatusCode | src/http/common.rs:98-107 | a status's code has three digits; it is in the 2xx class exactly for OK, and in the 4xx class exactly for the four client errors |
| HttpCommon.StatusReason | src/http/common.rs:109-118 | a status's reason phrase is non-empty and made of letters and spaces, so it fits on the status line |
| HttpCommon.InsertAll | src/http/common.rs:197-199 | after the loop, the headers are the standard ones with the additional ones added, an additional header replacing a standard one of the same name |
| HttpCommon.CreateRequestHeader | src/http/common.rs:185-208 | the head has the route, the verb, HTTP/1.1, the body's length, and the Server, Content-Length, Connection and Content-Type headers overridden by the additional ones |
| HttpCommon.CreateRequest | src/http/common.rs:122-132 | the request has the created head and the body, and the head's length is the body's length |
| HttpCommon.CreateResponseHeader | src/http/common.rs:375-397 | the head has HTTP/1.1, the status, the body's length, and the standard headers overridden by the additional ones |
| HttpCommon.CreateResponse | src/http/common.rs:305-315 | the response has the created head and the body, and the head's length is the body's length |
| HttpCommon.PushHeaderLines | src/http/common.rs:286-291 | the loop appends one "name: value" CRLF line per header, in the iteration order |
| HttpCommon.GetRequestString | src/http/common.rs:275-295 | the text is the start line "VERB route version", the header lines, each ended by CRLF, and a final CRLF |
| HttpCommon.GetResponseString | src/http/common.rs:473-495 | the text is the status line "version code reason", the header lines, each ended by CRLF, and a final CRLF |
| HttpCommon.RequestToBytes | src/http/common.rs:169-181 | the bytes are the UTF-8 head text followed by the body bytes, if any |
| HttpCommon.ResponseToBytes | src/http/common.rs:359-371 | the bytes are the UTF-8 head text followed by the body bytes, if any |
| HttpCommon.ParseHeaderLines | src/http/common.rs:244-264 | the loop collects the upper-cased names and values of the lines that split on ": ", taking the content length from a parsable CONTENT-LENGTH line |
| HttpCommon.ParseRequestHeader | src/http/common.rs:231-273 | the method computes ParseRequest: an unknown verb is an error, a start line of fewer than three words panics, otherwise a head with the route, verb, version and collected headers |
| HttpCommon.ParseResponseHeader | src/http/common.rs:420-471 | the method computes ParseResponse: a start line of fewer than two words panics, an unparsable or unknown code is an error, otherwise a head with the version, status and collected headers |
| HttpCommon.HeaderEndFrom | src/http/common.rs:211-226 | the scan finds the first index past 4 ending a CR LF CR LF sequence, or reports none |
| HttpCommon.RequestHeadFromBuffer | src/http/common.rs:210-229 | when the head is read, the body starts just past the blank line, inside the buffer |
| HttpCommon.ResponseHeadFromBuffer | src/http/common.rs:399-418 | when the head is read, the body starts just past the blank line, inside the buffer |
| HttpCommon.CreateRequestHeaderFromBuffer | src/http/common.rs:210-229 | the scanning loop computes RequestHeadFromBuffer; without a blank line the error is "Request header larger than buffer" |
| HttpCommon.CreateResponseHeaderFromBuffer | src/http/common.rs:399-418 | the scanning loop computes ResponseHeadFromBuffer |
| HttpCommon.RequestBody | src/http/common.rs:141-161 | there is a body exactly when the length is positive and fits in the buffer after the head, and it is that slice of the buffer |
| HttpCommon.ResponseBody | src/http/common.rs:324-351 | as for requests, except that when the first read held only the head, the body is taken from the second read |
| HttpRoundTrip.BodyRuleOverflows | src/http/common.rs:141-161 | a buffer starting with the head `GET / HTTP/1.1`, `Content-Length: 18446744073709551615` reads back with that length and the body at 56, where the rule as written panics and the intended rule reports no body |
| HttpCommon.RequestFromBuffer | src/http/common.rs:134-167 | the whole request read from one buffer: a head error is returned unchanged; otherwise the head as RequestHeadFromBuffer, then the body as RequestBody at the head's end |
| HttpCommon.ResponseFromBuffer | src/http/common.rs:317-357 | the whole response: a head error is returned unchanged; otherwise the head as ResponseHeadFromBuffer, then the body as ResponseBody, from the second read when the first held only the head |
| HttpCommon.BodyRuleAsWritten | src/http/common.rs:141-161 | the rule as written panics exactly when the body start plus the Content-Length does not fit in 64 bits; otherwise any body it returns has a positive length, fits in the buffer and is that slice |
| HttpCommon.BodyRuleAgrees | src/http/common.rs:141-161 | wherever the rule as written does not panic, it agrees with the corrected rule |
| HttpRoundTrip.SplitLines | src/http/common.rs:232 | splitting written lines on CRLF gives back the lines, then the rest |
| HttpRoundTrip.NoBlankLine | src/http/common.rs:211-226 | written lines that are not empty contain no CR LF CR LF before their end |
| HttpRoundTrip.HeadEnd | src/http/common.rs:211-226 | the scan stops exactly at the blank line that ends a written head, whatever follows it |
| HttpRoundTrip.FieldsOfHeaders | src/http/common.rs:244-264 | parsing the header lines of well-formed headers gives back every header under its upper-cased name, and the Content-Length value |
| HttpRoundTrip.UnknownVerbRejected | src/http/common.rs:238-240 | a start line whose first word is no verb fails with "Unknown http verb" |
| HttpRoundTrip.RequestLineWithoutVersionPanics | src/http/common.rs:238-242 | a start line with a verb and a route but no version panics |
| HttpRoundTrip.StatusLineWithoutCodePanics | src/http/common.rs:434 | a status line of one word panics |
| HttpRoundTrip.UnknownStatusRejected | src/http/common.rs:434-441 | a status line with a code below 2^15 outside the six known ones fails with "Unknown response type code" |
| HttpRoundTrip.ParseWrittenRequest | src/http/common.rs:231-273 | parsing the text get_string writes for a well-formed request head gives back its verb, route and version, and its headers upper-cased |
| HttpRoundTrip.ParseWrittenResponse | src/http/common.rs:420-471 | parsing the text get_string writes for a well-formed response head gives back its version and status, and its headers upper-cased |
| HttpRoundTrip.RequestHeadRoundTrip | src/http/common.rs:210-229 | a buffer beginning with a written request head is read back to that head, and the body starts right after it |
| HttpRoundTrip.ResponseHeadRoundTrip | src/http/common.rs:399-418 | a buffer beginning with a written response head is read back to that head, and the body starts right after it |
| HttpRoundTrip.RequestRoundTrip | src/http/common.rs:134-181 | a request written by to_bytes into the buffer is read back by from_stream: same verb, route and version, headers upper-cased, the Content-Length value, and, when that value is the body's length, the same body (an empty body comes back absent) |
| HttpRoundTrip.ResponseRoundTrip | src/http/common.rs:317-371 | the same for responses, whether the first read held the body or only the head; the body comes back when the Content-Length value is its length |
| HttpRoundTrip.CreatedHeaders | src/http/common.rs:185-208 | the headers create makes are well formed, and their Content-Length value reads back as the body's length |
| HttpRoundTrip.CreatedRequestRoundTrip | src/http/common.rs:122-208 | a request made by create, written and read back, has the same verb and route, HTTP/1.1, the headers upper-cased, the body's length, and the body |
| HttpRoundTrip.CreatedResponseRoundTrip | src/http/common.rs:305-397 | a response made by create and written, when the first read returns the whole response (head and body), is read back with HTTP/1.1, the same status, the headers upper-cased, the body's length, and the body |

## Left out

- Threads, channels and `recv().unwrap()`: each loop is a method over the sequence of messages it receives. Replies are values carrying their channel, not sends, so the panic of `reply_channel.send(..).unwrap()` (src/io/network.rs:36, 40), which ends the resolver thread when a requester has already dropped its receiver, is not modelled.
- `WorkerPool`, `Controller`, `main`, the HTTP client and server, routing, JSON, logging and Uuid generation are not part of this model.
- The `NodeStateChange` event variant has no handler arm in the code. Only the Test and RunResult events are modelled.
- `handle_action` takes an action and a logger. Its call `logger.log_info("Action completed").unwrap()` is left out (logging is not modelled), and so is the panic that `unwrap` raises when logging fails.
- src/orchestrating/mod.rs:59 passes a name-resolver channel as a third argument that the two-parameter `handle_action` has no place for; the model follows the function as written.
- The socket reads and `stream.read(..).unwrap()` are parameters: `buffer`, `read` and `next`. An I/O failure is not modelled.
- Text.DecodeLossy: decodes per byte. An ASCII byte becomes its character and any other byte becomes U+FFFD, so valid multi-byte UTF-8 decodes differently from `String::from_utf8_lossy`. Heads made of ASCII text are unaffected (Text.DecodeUtf8Ascii).
- Text.Upper: upper-cases ASCII letters only and keeps the length. Rust's `to_uppercase` also maps some non-ASCII letters to ASCII ('ı' to "I", 'ſ' to "S", 'ﬆ' to "ST") and can change the length ('ß' to "SS"). So `HttpVerb::from_str` accepts "optıons" as OPTIONS, where HttpCommon.VerbFromStr reports an unknown verb.
- HttpRoundTrip.RequestRoundTrip: requires well-formed text, as the source's own parse does: names and values without CR, LF or ": ", route and version without a space, and no two names that differ only in case. It also requires ASCII text. That condition comes from the model's per-byte Text.DecodeLossy; `from_utf8_lossy` returns valid UTF-8 from `to_bytes` unchanged, so the source also recovers non-ASCII heads.
- HttpRoundTrip.RequestRoundTrip: recovers an empty body as absent, because `from_stream` returns no body for a zero Content-Length; the same holds for HttpRoundTrip.ResponseRoundTrip.
- HttpCommon.RequestBody: the rest of the model uses the corrected rule (see Findings); the overflow panic is modelled only in HttpCommon.BodyRuleAsWritten.
- HttpCommon.ResponseBody: the response body rule at src/http/common.rs:324-351 adds `content_length` to the body start in the same way and has the same overflow panic; the model has only the corrected form, which reports no body there.
- `Url::print` writes to standard output; it is not part of this model.

## Findings

| source | as written | input that shows it | evidently intended | confidence | as-written member | corrected member |
|---|---|---|---|---|---|---|
| src/http/common.rs:141-161 | the body check adds the body start to the parsed Content-Length before comparing with the buffer size, and that sum can overflow usize | the head `GET / HTTP/1.1\r\nContent-Length: 18446744073709551615\r\n\r\n` (the largest usize): the body starts at 56, the sum exceeds usize, so a debug build panics on overflow and a release build wraps the end to 55 and slices with an end before the start | a Content-Length too large for the buffer gives no body | not executed | HttpRoundTrip.BodyRuleOverflows | HttpCommon.RequestBody |
