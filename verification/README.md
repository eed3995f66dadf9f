# Verified model of ehttpd's request, memory and response core

ehttpd is a small HTTP server in C. This project models its three hard components in Dafny and
proves what they promise.

**Parsing and the connection loop.** `RequestLine`, `HeaderLine` and `HeaderBlock` are the two
resumable byte automata as folds over bytes. `RequestLineGrammar` and `HeaderLine` relate them, in
both directions, to declarative grammars, and `Continuations` shows that an error is reported exactly
when no continuation of the input could be accepted. `UriSpec` defines path normalisation in two layers,
percent-decoding and then a stack of segments; `UriNormaliser` is the one-pass, in-place loop and is
proved equal to it, `UriProperties` proves what the result is like. `RequestHead` is the reference:
one request head parsed in one shot from its text, and the sequence of requests in a byte stream
when every head must fit in 4096 bytes (`Framing` has the part that is independent of HTTP).
`RequestText`, `HeadMeaning`, `Escapes`, `UriRules` and `ByteTables` say the same things once more
without the definitions that parser and reference share: lines as texts in pieces, escapes from
digit tables, path resolution as rewriting, byte classes and words as written-out text.
`HttpRequest`, `HeaderIndex`, `RequestStrings`, `CopyString` and `Connection` are the mutable
objects: the fixed buffer, the request whose fields the switches update, the header index, the
copied strings, and the driver. `Terminated` and `Progress` are the pure facts the driver keeps: the
NULs written into the buffer, and how far a head has been parsed. The main result is that the way
input is cut into chunks never matters, over whole runs with pipelining and keep-alive. `Socket` is
the other side: only its own methods record what it delivered, what it took, and that it failed, and
the driver and the writer are proved against that record; `Heap` counts failed allocations. `Surprises` has requests on which the code departs from
what one would expect.

**Memory.** `Pool` is the allocator, with pointers as (chunk, offset) and memory as bytes, so that
"no other allocation changes" is a statement about bytes. `PoolArray` and `PoolList` are the two
containers that live in it, the first of which moves the pool's own bump pointer.

**Response.** `ResponseHeader` prints the head into its 8192-byte buffer and is proved inverse to the
header parser; `ResponseWriter` drains the buffer chain through partial sends.

The standards behind the parsers are RFC 7230 (sections 3.1.1, 3.2 and 3.5) and RFC 3986 (sections
2.1 and 5.2.4). `dafny verify dfyconfig.toml` checks everything.

## Where the code differs from what one would expect

The model does what the code does:

- `http_version` is computed from the major number twice (http/ehd_http_parse.c:416), so the check
  against non-GET 0.9 requests fires only for a major number that wraps round (`RefusedBy09Check`,
  `Head09IsAccepted`, `WrappedVersionIsRefused`).
- The method code of POST is given to the word POTT (http/ehd_http_parse.c:67-68, `PostIsPott`).
- The port digit test is always false (http/ehd_http_parse.c:183): a port is any bytes up to `/`.
- `host_start` points at the second slash of `://` (http/ehd_http_parse.c:146).
- After `%` or `/.` a `?` no longer starts the arguments and stays in the path
  (http/ehd_http_parse.c:261-278).
- The normaliser keeps a final `.` or `..`, drops a truncated final escape, and rejects `..` above
  the root, which RFC 3986 section 5.2.4 ignores.
- Normalising is not idempotent on results that contain `%` (`FixedPointFails`, `FixedPoint`).
- Only SP, not HTAB, is trimmed around header values (http/ehd_http_parse.c:699-751).
- On a path with a NUL before its last byte the fast path copies less than the recorded length
  (`CopyIsWhole`, `NulInPathIsAccepted`); as C strings both paths agree.
- A pool whose blocks have no room for a large node never returns from a large allocation
  (`Pool.Palloc` asks for exactly the other cases), and an array or list with a count of 0 cannot be
  pushed to safely (`Create`, `Init`).
- The response printer reports success for a head that did not fit, as long as two bytes are left. When
  the last value is cut, the CRLF of the blank line ends the cut header and there is no blank line
  (http/ehd_http_core.c:422-446, `LastValueIsCut`, `GenHeader`).
- A status line longer than the response buffer moves `last` out of it
  (http/ehd_http_core.c:399-403, `GenHeader`); the model stops there.
- The writer's resume position is never advanced (http/ehd_http_core.c:463-476), so a response
  whose first buffer is finished when the socket blocks is closed at the next call (`OnWritable`).
  The same send of 0 bytes closes on an empty buffer or file.

## Model

| member | source | states |
|---|---|---|
| RequestLine.Split | http/ehd_http_parse.c:37-426 | Split law: if a prefix ends in EHD_AGAIN, parsing from the saved state gives the same code, position and captured pointers as parsing the concatenation in one call; a decided prefix stays decided |
| RequestLine.RefusedBy09Check | http/ehd_http_parse.c:416-421 | EHD_HTTP_PARSE_INVALID_09_METHOD is returned for a finished line iff the method is not GET and the wrapped major version is 1724852001: the version adds major to itself, so no 0.9 request is refused |
| Surprises.MajorIsUint | http/ehd_http_parse.c:343-362 | The major version of a finished line is a uint, so the next row speaks of every finished line |
| Surprises.LineRefusedBy09Check | http/ehd_http_parse.c:416-421 | Which finished lines the 0.9 check refuses: exactly those that are not GET and whose wrapped major version is 1724852001 |
| Surprises.Head09IsAccepted | http/ehd_http_parse.c:416-421 | `HEAD /` without a version is accepted although it is a 0.9 request that is not GET |
| Surprises.WrappedVersionIsRefused | http/ehd_http_parse.c:416-421 | `HEAD / HTTP/1724852001.0` is refused as a 0.9 request |
| Surprises.PostIsPott | http/ehd_http_parse.c:67-71 | The word POTT gets the code of POST, and the word POST gets none |
| RequestLineGrammar.Accepts | http/ehd_http_parse.c:40-424 | Completeness: every text of the grammar is accepted, consuming exactly its bytes, with the marks the grammar assigns |
| RequestLineGrammar.OnlyAccepts | http/ehd_http_parse.c:40-424 | Soundness: whatever is accepted, consuming k bytes, is k bytes of the grammar, and every captured span, flag and version number is the grammar's |
| RequestLineGrammar.ParseLineIsGrammar | http/ehd_http_parse.c:37-426 | Acceptance of k bytes with marks m iff the grammar relates them; hence k and all marks are unique. `args_start` is set iff a `?` precedes every `%` and every `/.`, and points just behind the first `?` |
| RequestLineGrammar.VerbIsTheWord | http/ehd_http_parse.c:54-81 | A finished line has the code of GET, HEAD or POST iff its whole method word is GET, HEAD or POTT, and none iff it is none of the three |
| RequestText.AcceptedIffText | http/ehd_http_parse.c:40-424 | The parser accepts k bytes iff they are line breaks, a word of capitals, spaces, an optional `scheme://host[:port]`, a target up to the first space or line break, and an optional version, one behind the other |
| Continuations.WhichError | http/ehd_http_parse.c:49-86 | The error is an invalid method iff the method word is at fault, and an invalid request otherwise |
| ByteTables.HostBytes | http/ehd_http_parse.c:166-168 | The bytes of a host, from written-out tables |
| ByteTables.NameBytes | http/ehd_http_parse.c:647-684 | The bytes of a header name, from written-out tables |
| ByteTables.Letters | http/ehd_http_parse.c:49-51 | Capitals, small letters and digits, from written-out tables |
| ByteTables.VersionNumber | http/ehd_http_parse.c:347-391 | A version number is the value of its digits modulo 2^32 |
| Surprises.AbsoluteFormIsAccepted | http/ehd_http_parse.c:119-188 | All marks of `GET http://h:x/ HTTP/1.1`: the host is marked from the second slash on, and the port need not be digits |
| HeadMeaning.Arguments | http/ehd_http_parse.c:215-257 | `args_start` is set iff some `?` of the target has no `?`, `%` or `/.` before it, and then points just behind that one |
| RequestHead.LineInBounds | http/ehd_http_parse.c:190-278 | In a finished line all spans are in order and inside the line; the path is not empty and starts with `/`; `uri_ext`, if set, lies inside the path, so no length computed from the marks is negative |
| RequestHead.ExtMarkIsExtension | http/ehd_http_parse.c:225-258 | In a path that needs no rewriting, `uri_ext` marks what stands behind the last dot of the final segment, or is NULL when there is no such dot |
| Continuations.LineErrorsAreExact | http/ehd_http_parse.c:40-424 | An error is returned exactly when no continuation of the input would be accepted: never too early, never too late |
| Continuations.LineErrorsByGrammar | http/ehd_http_parse.c:40-424 | The same in terms of the grammar: an error iff the input begins no request line |
| Continuations.LineCanEnd | http/ehd_http_parse.c:43-409 | From every state the line can still be completed |
| Continuations.BlockErrorsAreExact | http/ehd_http_parse.c:608-807 | A header block is refused, from any state and position, exactly when no continuation of it is complete |
| HttpRequest.Request.TurnFront | http/ehd_http_parse.c:43-117 | The case labels up to the target, in place on the request's fields: one turn of the reference automaton, same error codes |
| HttpRequest.Request.TurnAuthority | http/ehd_http_parse.c:119-188 | The case labels for scheme, host and port, including the port test that never fails |
| HttpRequest.Request.TurnTarget | http/ehd_http_parse.c:190-278 | The case labels for the target |
| HttpRequest.Request.TurnVersion | http/ehd_http_parse.c:280-404 | The case labels for the version and the line break, with uint wrap-around |
| HttpRequest.Request.TurnLine | http/ehd_http_parse.c:43-409 | The whole switch equals one turn of the reference automaton and touches no header field |
| HttpRequest.Request.FinishLine | http/ehd_http_parse.c:412-422 | The code behind the loop: end mark, version, 0.9 check, and state reset |
| HttpRequest.Request.ParseRequestLine | http/ehd_http_parse.c:9-427 | The loop over the buffer equals the reference run: EHD_AGAIN with pos == last and the saved state, EHD_OK with pos at the end of the line, or an error with pos and state untouched |
| HttpRequest.Request.TurnHeader | http/ehd_http_parse.c:630-790 | The switch of the header parser equals one turn of its reference automaton |
| HttpRequest.Request.ParseHeaderLine | http/ehd_http_parse.c:608-807 | The loop over the buffer equals the reference run for all four outcomes, and changes no mark of the request line |
| HeaderLine.Split | http/ehd_http_parse.c:624-806 | Split law of the header parser |
| HeaderLine.ReadsOnlyAhead | http/ehd_http_parse.c:624-806 | The parser reads nothing before the byte it resumes at, so overwriting earlier bytes cannot change its answer |
| HeaderLine.FieldIsGrammar | http/ehd_http_parse.c:630-797 | A header line is accepted with marks m and length k iff the grammar gives them: name bytes, colon, spaces trimmed on both sides (SP only), CRLF or LF |
| HeaderLine.EndIsBlankLine | http/ehd_http_parse.c:633-642 | HEADER_DONE at the start of a line iff a line break stands there, consuming exactly it |
| HeaderLine.NeverEnds | http/ehd_http_parse.c:665-696 | A line that has begun with a name never reports HEADER_DONE |
| HeadMeaning.FieldIsText | http/ehd_http_parse.c:630-797 | A parsed header line is, from left to right, its name, a colon, spaces, its value, spaces and a line break |
| HeadMeaning.TextIsField | http/ehd_http_parse.c:630-797 | Every such text is a header line, with exactly this name and this value |
| HeadMeaning.BlockIffText | http/ehd_http_parse.c:608-807 | A block is parsed to a list of names and values iff it is their text, one line for each, and a blank line |
| HeaderBlock.SplitBlock | http/ehd_http_parse.c:608-807 | Split law over a whole block of header lines |
| HeaderBlock.BlockReadsOnlyAhead | http/ehd_http_parse.c:608-807 | A whole block depends only on the bytes from its start on |
| HeaderBlock.BlockLineFeeds | http/ehd_http_parse.c:608-807 | A complete block of n headers has at least n + 1 line feeds |
| HeaderBlock.ChunksDoNotMatter | http/ehd_http_parse.c:608-807 | Feeding a block in any list of chunks, resuming each time, yields the block of a single call on their concatenation |
| UriNormaliser.ParseComplexUri | http/ehd_http_parse.c:430-605 | The fused one-pass loop, in place: it succeeds iff what the path is written for, by the digit tables, can be resolved; writes exactly that resolution and a NUL, and sets the extension mark; output no longer than the input, no read behind the delimiter, termination by (bytes left, half-read escape) |
| Escapes.DecodeIsInverse | http/ehd_http_parse.c:541-585 | Percent-decoding gives d iff the path is written for d: every byte as itself or as `%` and two digits from the tables 0-9A-F and 0-9a-f, with at most an escape cut off at the end |
| Escapes.BadEscapeIsRefused | http/ehd_http_parse.c:549-585 | A byte in neither table in the place of a digit is refused, whatever stands before and behind |
| Escapes.NormaliseByMeaning | http/ehd_http_parse.c:430-605 | The normal form of a raw path is the resolution of what the path is written for |
| UriRules.SlashesMerge | http/ehd_http_parse.c:477-478 | `//` may be replaced by `/` anywhere |
| UriRules.DotVanishes | http/ehd_http_parse.c:495-500 | `/./` may be replaced by `/` anywhere |
| UriRules.DotDotCancels | http/ehd_http_parse.c:517-528 | `/name/../` may be replaced by `/` anywhere |
| UriRules.RootHasNoParent | http/ehd_http_parse.c:519-524 | A path that begins with `/../` is refused |
| UriRules.NamesStay | http/ehd_http_parse.c:454-540 | A path whose directories have proper names stays, whatever its final segment is; with the four rules before, this determines every path |
| UriRules.FinalSegmentIs | http/ehd_http_parse.c:454-540 | The final segment is what stands behind the last slash |
| UriRules.ExtensionIs | http/ehd_http_parse.c:466-471 | The extension is what stands behind the last dot of the final segment, unless before that dot there is nothing, `.` or `..` |
| UriNormaliser.TurnUnquoted | http/ehd_http_parse.c:454-539 | One turn in the four unquoted states keeps: what is decoded, followed by what is still to go, is the decoding of the input, and the output is the resolution of what is decoded |
| UriNormaliser.PutByte | http/ehd_http_parse.c:454-539 | The switch keeps output, automaton state and extension mark equal to what the decoded text determines, and fails only when a `..` climbs above the root |
| UriNormaliser.OnUsual | http/ehd_http_parse.c:455-473 | Ordinary bytes, dots and slashes in a name |
| UriNormaliser.OnSlash | http/ehd_http_parse.c:475-493 | Repeated slashes are merged; a dot opens a possible dot segment |
| UriNormaliser.OnDot | http/ehd_http_parse.c:495-515 | `/./` is removed by one step back |
| UriNormaliser.OnDotDot | http/ehd_http_parse.c:517-539 | `/../` removes the parent, and is refused exactly when there is none |
| UriNormaliser.ScanBack | http/ehd_http_parse.c:521-527 | The unguarded backward scan stays inside the output and stops just behind the slash that opens the parent |
| UriNormaliser.PutPercent | http/ehd_http_parse.c:562-567 | An escape that decodes to `%` is an ordinary byte |
| UriNormaliser.ResolveFails | http/ehd_http_parse.c:522-524 | Once a prefix climbs above the root, no continuation is accepted |
| UriNormaliser.CloseDotDot | http/ehd_http_parse.c:517-528 | `sw_dot_dot` implies that the output ends in `/..`, with a slash before it unless it is at the root |
| UriProperties.NormalForm | http/ehd_http_parse.c:454-590 | The result starts with `/`, its non-final segments are never empty, `.` or `..`, and it resolves to itself |
| UriProperties.FixedPoint | http/ehd_http_parse.c:430-605 | Normalising a result again returns it unchanged iff it contains no `%` |
| UriProperties.FixedPointFails | http/ehd_http_parse.c:541-585 | `/%2561` normalises to `/%61`, which normalises to `/a` |
| UriProperties.ResolveShrinks | http/ehd_http_parse.c:454-540 | Removing segments never lengthens the path |
| UriProperties.DecodeShrinks | http/ehd_http_parse.c:541-585 | Every escape makes the path strictly shorter |
| UriProperties.PlainIsFixed | http/ehd_http_parse.c:454-540 | A rooted path without escapes, empty segments or segments that start with a dot is its own normal form |
| CopyString.CopyStringN | core/ehd_string.c:32-49 | The copy in place: the bytes up to the first NUL or n-1 bytes, then a NUL; everything behind is untouched; n == 0 writes nothing |
| CopyString.CopyIsCString | core/ehd_string.c:32-49 | As a C string the copy always equals the bytes that were to be copied |
| Surprises.NulInPathIsAccepted | core/ehd_string.c:32-49 | A line whose path has a NUL in the middle is accepted on the fast route: the recorded length is 4, the string has 2 bytes |
| CopyString.CopyIsWhole | core/ehd_string.c:32-49 | The copy delivers every byte, whatever the memory held, iff no NUL stands before the last byte |
| Socket.Socket.Recv | core/ehd_socket.c:45-79 | Delivers 1 to room bytes or none, and is the only place where delivered bytes, failures, and the end of readiness are recorded: `rready` is cleared exactly by an answer that delivers less than was asked for; it is never asked for zero bytes |
| Socket.Socket.Send | core/ehd_socket.c:82-116 | Takes any non-empty part from the front of what it is offered, or none, and nothing of nothing; the only place where taken bytes, the number of sends and the last answer are recorded |
| RequestHead.FastPath | http/ehd_http_request.c:179-198 | Fast path refines slow path: with `complex_uri == 0` the normaliser accepts the path, returns the same bytes, and finds the extension the scan marked |
| RequestHead.HeadPrefix | http/ehd_http_request.c:122-392 | A head that is complete or refused stays so whatever bytes follow |
| RequestHead.RequestsGrow | http/ehd_http_request.c:122-462 | The requests of a stream are a prefix of the requests of every longer stream |
| RequestHead.NextHeadIsDecisive | http/ehd_http_request.c:282-310 | With a 4096-byte budget for each head, complete, refused and overlong heads are decided once and for all |
| RequestHead.BlockIsOrdered | http/ehd_http_request.c:320-338 | Names and values of a block lie one behind the other, each followed by at least one byte of its own |
| Surprises.Head09IsARequest | http/ehd_http_request.c:122-392 | `HEAD /` and two line feeds hold exactly one request, for `/` and without headers, and use all 8 bytes |
| RequestStrings.Duplicate | http/ehd_http_request.c:154-163 | A span copied into memory of its own is the same C string |
| RequestStrings.CopyComplex | http/ehd_http_request.c:173-195 | The complex route yields the C string, length and extension of the layered definition; it fails exactly when that fails or an allocation does, and says which |
| RequestStrings.CopyPlain | http/ehd_http_request.c:196-225 | The fast route copies path and extension as they stand, refuses nothing, and fails exactly when an allocation does |
| RequestStrings.CopyUri | http/ehd_http_request.c:165-225 | Both routes deliver the same result: that of the layered definition |
| RequestStrings.CopyStrings | http/ehd_http_request.c:152-252 | The unparsed URI is the C string of the whole target, from its slash to its end, arguments included; the recorded URI is the normal form of the target up to the arguments, on either route; all strings are those of the reference |
| Framing.FramesAppend | http/ehd_http_request.c:122-462 | A stream used up by its requests can be followed by another: requests and bytes used add up |
| Framing.FramesGrow | http/ehd_http_request.c:122-462 | More input never changes the requests already found |
| Framing.FramesStop | http/ehd_http_request.c:276-286 | After a refused or overlong head no request will ever follow |
| Framing.FrameFollows | http/ehd_http_request.c:368-383 | A complete head is the next request of the stream, and the stream up to its end is used up exactly |
| Terminated.WithNulsAt | http/ehd_http_request.c:201 | Exactly the terminator positions hold NUL; every other byte of the buffer is as received |
| Terminated.NothingAhead | http/ehd_http_request.c:332-338 | The in-place NULs never touch an unparsed byte |
| Terminated.StringsKept | http/ehd_http_request.c:332-338 | Nor any stored name or value, nor the request line; and each of them ends in its NUL |
| Terminated.RunStaysSane | http/ehd_http_request.c:320-338 | At every point where a header line can be interrupted, its marks are in order behind the previous line |
| Progress.LineAnswer | http/ehd_http_request.c:146-281 | What each answer of the resumed line parser means for the one-shot reference |
| Progress.RunOverNuls | http/ehd_http_request.c:320 | The header parser resumed over the overwritten buffer answers as over the received text |
| Progress.BlockField | http/ehd_http_request.c:322-367 | A parsed header extends the list by the header the one-shot reference has next |
| Progress.NoRequestWithheld | http/ehd_http_request.c:311-313 | While the head is incomplete the stream holds no request beyond those parsed |
| Progress.NothingFollows | http/ehd_http_request.c:306-310 | A head that fills the buffer without ending, or is refused, is the end of the requests |
| Progress.RequestFollows | http/ehd_http_request.c:368-383 | A complete head is the next request of the stream |
| Progress.HeadNeedsMore | http/ehd_http_request.c:122-392 | A head incomplete in a prefix uses bytes beyond it, so a complete head does not depend on what follows it |
| HeaderIndex.KnownAreDistinct | http/ehd_http_request.c:24-42 | No name matches two entries of the table case-insensitively, so stopping at the first is enough |
| HeaderIndex.AgreesSlot | http/ehd_http_request.c:351-366 | Storing the header in the first matching slot, and in none when no name matches, keeps every slot at the last match |
| HeaderIndex.AgreesCookie | http/ehd_http_request.c:340-349 | A Cookie header belongs to no slot and ends the cookie list |
| HeaderIndex.Index.Record | http/ehd_http_request.c:340-366 | Each known slot keeps pointing to the last header whose name matches case-insensitively, and cookies lists every Cookie header in order |
| HttpRequest.Buffer.Receive | http/ehd_http_request.c:421-432 | What arrives lands behind what is there |
| HttpRequest.Buffer.Compact | http/ehd_http_request.c:445-456 | The unparsed bytes, exactly these and in order, move to the start of the buffer |
| HttpRequest.Buffer.Terminate | http/ehd_http_request.c:332-338 | One byte is overwritten by NUL, no other |
| HeadMeaning.UnparsedUri | http/ehd_http_request.c:154-163 | The unparsed URI of a head is the C string of all bytes from the target's slash to the first space or line break |
| HeadMeaning.UriIsNormalForm | http/ehd_http_request.c:165-225 | The recorded URI and its length are the normal form of the target up to the arguments, on simple and complex paths; the extension is that of the decoded path's final segment |
| HeadMeaning.HeadersAreText | http/ehd_http_request.c:320-338 | The head ends with the text of its headers: names, values and order are those of the text |
| ByteTables.NamesMatch | http/ehd_http_request.c:340-366 | Two names match iff at every place they have the same byte or the two cases of one letter of the alphabet |
| ByteTables.SlotNames | http/ehd_http_request.c:24-42 | The nine names of the table, written out |
| Connection.Connection.constructor | http/ehd_http_request.c:56-111 | A new connection on a socket that has delivered nothing: empty buffer of 4096 bytes, nothing parsed |
| Connection.Connection.ReadRequestHeader | http/ehd_http_request.c:410-434 | Exactly what the socket delivers is appended to what the driver works on, whatever the chunk; it answers that there is nothing only when the socket is no longer ready, and closes exactly when the socket reports an end or an error. Never asks for zero bytes; parsed requests and marks stay |
| Connection.Connection.ParseLine | http/ehd_http_request.c:146-281 | The resumed parse agrees with the reference on what has been received, whatever the chunks |
| Connection.Connection.MakeStrings | http/ehd_http_request.c:152-252 | The strings made are the reference's, and a refused path is refused by the reference |
| Connection.Connection.FinishLine | http/ehd_http_request.c:147-274 | A finished line leaves strings, a NUL behind the line, and an empty header list; it closes because the path is refused, or exactly when memory fails |
| Connection.Connection.TurnLine | http/ehd_http_request.c:146-286 | One turn of the line loop: keeps the connection invariant, and a full buffer without a line closes |
| Connection.Connection.ProcessRequestLine | http/ehd_http_request.c:122-288 | The whole read handler keeps the invariant and ends with nothing left unparsed, or handling, or closed |
| Connection.Connection.ParseHeader | http/ehd_http_request.c:320-390 | The resumed header parse agrees with the reference although NULs have been written behind it |
| Connection.Connection.PushHeader | http/ehd_http_request.c:322-367 | Pushes, terminates and indexes the header; list, buffer and index stay in agreement |
| Connection.Connection.RefillHeaders | http/ehd_http_request.c:305-319 | A full buffer closes; otherwise a byte to parse is there, or the handler returns |
| Connection.Connection.TurnHeaders | http/ehd_http_request.c:320-390 | One turn of the header loop: keeps the connection invariant; a complete header is pushed, a complete head handled, an error closes |
| Connection.Connection.ProcessRequestHeaders | http/ehd_http_request.c:290-392 | The whole read handler keeps the invariant and terminates |
| Connection.Connection.StartHandling | http/ehd_http_request.c:368-383 | At HEADER_DONE exactly one request is added, and what the handler sees is the reference's head |
| Connection.Connection.InitRequest | http/ehd_http_request.c:56-111 | Starts a request at the first unused byte of the stream; gives up exactly when the socket or the memory fails, or because of the input |
| Connection.Connection.OnReadable | http/ehd_http_request.c:56-392 | Any read event in any phase keeps: the bytes the socket has delivered are those used by finished requests followed by those of the window, so nothing is lost, added or reordered; parsed requests stay. At rest the socket, ready when the event came, has been read until it delivered less than was asked for, and no complete request is withheld. An open connection is closed for another reason than its input iff the socket or the memory failed during the event |
| Connection.Connection.KeepAlive | http/ehd_http_request.c:436-464 | Handled bytes become past, unparsed bytes stay the window and move to the front; together they are still what the socket delivered |
| Connection.Connection.HandledIsPast | http/ehd_http_request.c:436-464 | The head being handled is the last request of the stream up to its end |
| Connection.RequestsArePrefix | http/ehd_http_request.c:122-462 | In every reachable state the requests parsed are a prefix of what the one-shot reference finds in the bytes the socket has delivered, whatever it delivers next |
| Connection.MalformedIsFinal | http/ehd_http_request.c:276-286 | A connection closed because of its input has parsed every request its socket will ever deliver |
| Connection.SettledHasAll | http/ehd_http_request.c:122-462 | A connection that has nothing left to parse, or gave up on its input, has parsed exactly the requests that the reference finds in the delivered bytes |
| Connection.ChunkingDoesNotMatter | http/ehd_http_request.c:122-462 | Settled connections (nothing delivered is left to parse) whose sockets delivered the same bytes, in whatever chunks, have parsed the same requests, namely all that the reference finds; when one socket delivered more, a continuation of them |
| Connection.HandlerSeesTheHead | http/ehd_http_request.c:368-383 | The handler's strings and header list are the reference's, read out of the overwritten buffer, and the header index agrees with the names of that list |
| Pool.TakeKeepsLive | core/ehd_palloc.c:53-57 | Bumping `last` hands out bytes that no live allocation has, in bounds |
| Pool.NewBlockKeepsAll | core/ehd_palloc.c:64-74 | Linking a fresh block keeps the chain, the large list and all live allocations |
| Pool.NewLargeKeepsLarge | core/ehd_palloc.c:104-117 | A malloced chunk handed to a node keeps the large list well formed: one owner for each chunk |
| Pool.StorePreserves | core/ehd_palloc.c:120-130 | A write inside one allocation changes no byte of any disjoint one |
| Pool.Pool.constructor | core/ehd_palloc.c:8-22 | A fresh pool is one block with nothing handed out, for every size that holds the block header |
| Pool.Pool.PallocSmall | core/ehd_palloc.c:51-74 | First fit: the first block with room is taken from; a block is added only when none has room, with the head's capacity, and then serves the request; it fails iff malloc fails, and then nothing live has changed |
| Pool.Pool.LargeNode | core/ehd_palloc.c:79-102 | The node for a large chunk: the recursive call takes the small path, so it terminates and leaves the large list unchanged |
| Pool.Pool.PallocLarge | core/ehd_palloc.c:79-117 | A large request gets a chunk of its own size, recorded in the list |
| Pool.Pool.Palloc | core/ehd_palloc.c:42-118 | It fails iff malloc failed, and then the live set is as it was. For a size that a block can hold, the first block with room serves it at its `last`, and a new block behind the chain does when none has room. Every outcome: live allocations stay in bounds and pairwise disjoint, the new one is exactly added, no byte of memory changes, both lists stay well formed. Asked for exactly where the recursion ends: the size is small or a block has room for a large node |
| Pool.Pool.SmallMeans | core/ehd_palloc.c:49-50 | Which sizes a block can hold, in numbers |
| Pool.Pool.Pcalloc | core/ehd_palloc.c:120-130 | The new allocation is all NUL, and every other allocation keeps its bytes; it fails iff malloc failed |
| Pool.Pool.FreeLarge | core/ehd_palloc.c:28-32 | Frees exactly the chunks owned by large nodes, each once, reading only nodes whose block is still there |
| Pool.Pool.FreeBlocks | core/ehd_palloc.c:33-39 | Frees every block of the chain once, and never reads a freed one |
| Pool.Pool.Destroy | core/ehd_palloc.c:24-40 | After any history nothing malloced for the pool is left |
| Pool.GrowKeepsLive | core/ehd_array.c:36-39 | An allocation that ends at `last` can grow there without meeting another one |
| Pool.RetractKeepsLive | core/ehd_array.c:22-28 | Moving `last` back over the last allocation leaves all others in bounds |
| Pool.Pool.GrowLast | core/ehd_array.c:36-39 | Moving `pool->last` replaces exactly that allocation by the longer one |
| Pool.Pool.RetractLast | core/ehd_array.c:22-28 | Retracting `pool->last` removes exactly that allocation |
| PoolArray.HeldAppend | core/ehd_array.c:49-51 | Filling the place behind the elements appends one element |
| PoolArray.HeldStays | core/ehd_array.c:31-52 | Elements depend only on the bytes of the array's own allocation |
| PoolArray.Array.Create | core/ehd_array.c:8-16 | For every count and element size: a new empty array in two new allocations, all others keep their bytes; it can be used iff both are positive |
| PoolArray.Array.GrowInPlace | core/ehd_array.c:36-39 | Growing in place keeps the contents and the data pointer |
| PoolArray.Array.Move | core/ehd_array.c:40-46 | Doubling keeps the contents and copies nblock elements; failure changes nothing |
| PoolArray.Array.GrowsInPlaceIs | core/ehd_array.c:34-37 | In numbers, when a full array can grow in place |
| PoolArray.Array.MakeRoom | core/ehd_array.c:34-47 | Says exactly when a full array grows in place and when it doubles; either way there is room afterwards, or nothing has changed |
| PoolArray.Array.Push | core/ehd_array.c:31-52 | Returns the place behind the last element, and fails iff malloc failed; says exactly when the array stays, grows in place or doubles; the elements before and all other allocations keep their bytes |
| PoolArray.Array.Append | core/ehd_array.c:31-52 | Push and fill refine sequence append through every growth path; it fails iff malloc failed, and then leaves the contents; every other live allocation keeps its bytes and its place |
| PoolArray.Array.CopiesAreLinear | core/ehd_array.c:40-46 | nblock <= max(n, 2 * ndata), and all doublings together have copied fewer than 2 * ndata elements |
| PoolArray.Array.Destroy | core/ehd_array.c:18-29 | The data is given back iff it is full and ends at the head block's last; the header iff it then ends there; nothing else is freed or changed |
| PoolArray.OthersKeepContents | core/ehd_array.c:31-52 | An array whose allocation is preserved by what happens elsewhere in the pool keeps its invariant and contents |
| PoolList.CountOf | core/ehd_list.c:39-68 | All nodes but the last are full, so the number of elements follows from the number of nodes |
| PoolList.ItemAtPlace | core/ehd_list.c:64-67 | Element i of a walk is the bytes at the i-th place handed out |
| PoolList.ItemsStay | core/ehd_list.c:39-68 | A list keeps its elements when the bytes of its nodes are preserved |
| PoolList.BumpedPlaces | core/ehd_list.c:64-65 | Counting one more element adds exactly one place behind the others |
| PoolList.List.Init | core/ehd_list.c:23-37 | For every count and element size: an empty list of one node; it can be used iff both are positive |
| PoolList.List.AddNode | core/ehd_list.c:45-62 | A new node is linked only when both allocations succeed, and it fails iff malloc failed; otherwise the list is unchanged; contents and places stay |
| PoolList.List.Push | core/ehd_list.c:39-68 | The places handed out grow by one at the end and earlier ones never move; a push into a node with room always succeeds, and any push fails iff malloc failed, which leaves the list unchanged |
| PoolList.List.Append | core/ehd_list.c:39-68 | Push and fill refine sequence append; every other live allocation keeps its bytes and its place |
| PoolList.OthersKeepContents | core/ehd_list.c:39-68 | A list whose nodes are preserved by what happens elsewhere in the pool keeps its invariant and contents |
| PoolList.List.Walk | http/ehd_http_core.c:418-440 | The printer's walk over nodes and elements yields the contents in push order |
| ResponseHeader.EmitIsHead | http/ehd_http_core.c:398-448 | The bytes emitted are exactly status line, `key: value` lines in order and a blank line iff these fit in the buffer |
| ResponseHeader.Response.PutField | http/ehd_http_core.c:422-439 | One header, by the two space tests, in numbers: written whole, cut behind `: `, or skipped; the buffer is never overrun |
| ResponseHeader.StatusLineIs | http/ehd_http_core.c:398-403 | The status line is `HTTP/1.1 `, digits that stand for the status without leading zeros, the text behind a space if there is one, and CRLF |
| ResponseHeader.StatusLineEnds | http/ehd_http_core.c:398-403 | Its first line break is its end, unless the text has one |
| ByteTables.Words | http/ehd_http_core.c:404-414 | The words that are printed, written out |
| ResponseHeader.OutgoingMeans | http/ehd_http_core.c:404-417 | The caller's headers keep their places; Server is added exactly when it is missing, and a Content-Length whose digits stand for the length exactly when there is a positive length that the caller did not set |
| ResponseHeader.DecimalValue | http/ehd_http_core.c:416 | The digits printed for a length stand for that length |
| ResponseHeader.AddedAreSendable | http/ehd_http_core.c:404-417 | The headers that the printer adds never spoil the list: what goes out is sendable iff the caller's headers are |
| ResponseHeader.Response.PutFields | http/ehd_http_core.c:418-440 | All headers in list order |
| ResponseHeader.Response.PutStatusLine | http/ehd_http_core.c:398-403 | snprintf: a line that does not fit is cut and ended by a NUL, while last still moves by its full length |
| ResponseHeader.Response.GenHeader | http/ehd_http_core.c:379-449 | The output begins with the status line. EHD_OK is returned iff the status line fits and the blank line's CRLF had room, which does not mean that the head is complete: however the output is cut behind the status line, it is parsed back to exactly the headers to be printed, the added ones included, iff the whole head fits in 8192 bytes and the caller's are sendable. A status line longer than the buffer, and only that, moves last out of the buffer; one of exactly 8192 bytes loses its last byte to a NUL |
| ResponseHeader.FieldRoundTrip | http/ehd_http_core.c:423-433 | A printed header is parsed back as itself iff its key is a non-empty run of name bytes and its value has no CR, LF or outer space |
| ResponseHeader.ReadPrinted | http/ehd_http_core.c:418-446 | Parsing a printed block yields one header per entry and HEADER_DONE exactly at its end |
| ResponseHeader.RoundTrip | http/ehd_http_core.c:398-448 | A printed list of headers, in any chunks, is parsed back to the same keys and values in the same order, then HEADER_DONE at its end, iff every header of it is sendable |
| ResponseHeader.GeneratedRoundTrip | http/ehd_http_core.c:398-448 | The same for the list that really goes out, with Server and Content-Length: iff the caller's headers are sendable |
| ResponseHeader.PrintedRoundTrip | http/ehd_http_core.c:398-448 | What is left in a buffer of any size is parsed back to the list iff the whole head fits and the caller's headers are sendable |
| ResponseHeader.CutIsNotReadBack | http/ehd_http_core.c:422-446 | A head that was not printed completely is never parsed back as its list |
| ResponseHeader.LastValueIsCut | http/ehd_http_core.c:422-446 | When the last value has no room, the output is `key: ` and one CRLF, without a blank line, and is reported as a success |
| ResponseHeader.LongValueIsCut | http/ehd_http_core.c:422-446 | Such an input: status 200 and one header with a value of 8173 letters |
| ResponseWriter.DrainedIsPrefix | http/ehd_http_core.c:466-527 | Bytes taken from the buffers are a prefix of the response, and all of it iff every buffer is finished |
| ResponseWriter.FileWaitsForHead | http/ehd_http_core.c:494-499 | File bytes are on the wire only behind every byte of the buffers before it |
| ResponseWriter.DrainedGrows | http/ehd_http_core.c:469-499 | A send from the first unfinished buffer puts its bytes right behind those already sent |
| ResponseWriter.Writer.Step | http/ehd_http_core.c:467-526 | One send of either kind offers what the buffer still has, from where it stopped; what the socket takes is what is counted; the writer waits, closes or goes on as the socket's answer says; a finished buffer means 0 bytes and close |
| ResponseWriter.Writer.OnWritable | http/ehd_http_core.c:452-528 | Every call in every run: what the socket has taken is a prefix of header ++ file; keep-alive only when it has taken everything; the call sends at least once, waits iff the socket's last answer was EAGAIN, closes iff that was 0 or an error, and otherwise sends on until all is sent; a call that finds the first buffer finished sends nothing and closes. When the socket takes all it is offered, the call ends in keep-alive iff it found no buffer finished |

## Left out

- Sockets, epoll, accept, sendfile, stat and open: recv, send and malloc are oracles that may answer anything their interface allows (any 1..k bytes, not ready, end of file, error; memory or none). Allocations that follow one another without anything in between are one call.
- Error pages, MIME types, directory redirects and file lookup (http/ehd_http_core.c:11-377): finite tables and file system plumbing.
- Configuration, listening setup, the echo handler and logging.
- `sw_ignore_line` and `r->proxy` (http/ehd_http_parse.c:686-694): the flag is never set; `ehd_atoi`: unused.
- The strings `request_line` and `method_name` (http/ehd_http_request.c:199-206): they alias the request line in the buffer, whose bytes are proved intact by StringsKept.
- The extension of a path is copied twice in a row (http/ehd_http_request.c:208-252); the model copies it once.
- `r->state` is one integer that both parsers read as their own enumeration; the model has one field for each, and proves that either parser only starts when the other is in its start state.
- Contents of header list and cookie array: in `Connection` they are sequences, and their allocation may fail; the containers themselves are PoolList and PoolArray.
- The second close after an error in the header phase (http/ehd_http_request.c:426-429, 314-317), and a failed `ehd_add_event`: the model stops at the first close.
- Liveness: `ehd_http_keep_alive` does not itself start parsing the bytes left over, and neither this nor completion of a response is claimed.
- Connection.ChunkingDoesNotMatter is about settled connections; while a response is under way later requests wait in the buffer, and RequestsArePrefix is what holds then.
- ResponseHeader.Response.GenHeader: after an overlong status line the model stops, because the copies that follow would write behind the buffer; lengths are not bounded by the 19 digits that its 20 bytes hold, which every `long` fits.
- ResponseHeader.Response.GenHeader: list nodes of the printer are one sequence; the walk over nodes is PoolList.List.Walk. An integer status is printed as a natural number.
- Pool.Pool.Palloc: addresses carry no alignment and sizes do not wrap round, because the allocator promises no alignment and its callers pass small sizes.
- Pool.Pool.constructor: pools smaller than the block header are left out; the code writes the header behind such a chunk.
- Pool, array and list headers and large nodes are typed fields; the bytes they occupy are accounted for as allocations that no other may overlap, and that no caller may write.
- PoolArray.Array.Create: stops when an allocation fails, where the code writes through NULL or keeps a NULL data pointer; what a push does to an array that cannot be used (count or element size 0) is not modelled.
- PoolList.List.Init: what a push does to a list that cannot be used (count or element size 0) is not modelled.
- Freed chunks are not handed out again by malloc within the life of a pool; chunk numbers are never reused.
- A file buffer of `ResponseWriter` is the bytes of the file at the time of sending; files that change while they are sent are not modelled.
