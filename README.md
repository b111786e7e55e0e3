# http-tweak in Dafny

This project models the core of http-tweak. It has two parts:
- a single-header HTTP/1.1 server, `http.hpp`;
- the JSON string codec of the tweak registry, `tweak.cpp`.

## The server

**Header names.** `case_insensitive_equals` compares header field names. Modules: `HeaderName`.

**Request parser.** `incoming_request` is the byte-at-a-time parser. It moves through three modes: request line, header lines, body. Each completed request goes to a continuation, then the parser resets, so pipelined requests on one connection are parsed in turn. Modules:
- `StartLine`: the request-line split;
- `HeaderValue`: header-value whitespace clean-up;
- `Text`: `std::stoul` and `std::to_string`;
- `RequestParser`: a pure step function `Step`, its fold `Feed`, and a class `IncomingRequest` whose methods update the parser's fields in place and are proved equal to `Step`/`Feed`;
- `ParserLines` and `ParserRoundTrip`: what `Feed` does to each kind of line, and the round trip `Feed(Initial, RequestBytes(r)) == Fed(Initial, [r], Running)` for well-formed requests.

**Message queue.** Each connection has a queue of outgoing messages. Module: `MessageQueue`.
- The source's linked list of `shared_ptr<message>` becomes a sequence of slot ids.
- The messages themselves live in a slot table `map<nat, Message>`.
- A slot exists exactly as long as some queue still owns its message. That is when a response's `weak_ptr` can lock it.
- `Flush` is the send loop for one connection.

**Response.** `response::~response` builds the wire message and fills the response's slot if the slot still exists. Module: `Response`.

**Poll.** `server::poll` has these phases: watch sets, accept, receive/parse/dispatch, send, reap. Modules:
- `Poll`: the phases as functions on a `World` value, with the invariant `Good` proved to hold after each phase;
- `HttpServer`: the class `Server`, whose methods run the same phases in place on its fields and are proved equal to the functions.

The operating system (`select`, `accept`, `recv`, `send`) is a parameter, `Environment`. The request handler is a pure function `Request -> Reply`: it answers at once, or defers and keeps the response.

## The JSON codec

Module `JsonString`:
- `utf8_to_json` is the method `Utf8ToJson`. It is proved equal to `Quote`.
- `json_to_utf8` is `JsonToUtf8`, with its `read_hex4` lambda as `ReadHex4`. Both are loops, proved equal to the recursive specification `Decode`/`Scan`/`Next`/`Unicode`.

The decoder takes a `Dialect`:
- `AsWritten` follows `tweak.cpp` literally;
- `Intended` fixes the three slips listed under Findings.

Every lemma states which dialect it speaks about. Round trips (`Decode(Quote(s)) == s`, reading back `\u` escapes and surrogate pairs, UTF-8 well-formedness of every code point that is not a surrogate) are proved for `Intended`, and for `AsWritten` where they also hold.

## Model

| member | source | states |
|---|---|---|
| HeaderName.Fold | http.hpp:133-134 | an upper-case ASCII letter is raised by 0x20, every other byte is unchanged |
| HeaderName.CaseInsensitiveEquals | http.hpp:128-138 | the loop returns true exactly when the names have equal length and agree byte by byte after folding |
| HeaderName.Reflexive | http.hpp:128-138 | every name equals itself ignoring case |
| HeaderName.Symmetric | http.hpp:128-138 | the comparison gives the same answer with its arguments swapped |
| HeaderName.Transitive | http.hpp:128-138 | names equal ignoring case to a common name are equal ignoring case |
| HeaderName.FoldEqualIff | http.hpp:133-135 | two bytes fold alike iff they are equal or are the two cases of one ASCII letter |
| HeaderName.NonLettersExact | http.hpp:131-135 | where one name has a non-letter, a name equal to it ignoring case has the same byte |
| HeaderValue.CollapseShape | http.hpp:183-191 | the collapsed value has no tab, no two adjacent spaces, no leading space, and the same non-blank bytes in order |
| HeaderValue.NonBlankDropSpace | http.hpp:192 | dropping the final space keeps the non-blank bytes |
| HeaderValue.NormalizeIsNormal | http.hpp:180-194 | a cleaned value has no tab, no double, leading or trailing space, and keeps the non-blank bytes |
| HeaderValue.CollapseKeepsNormalPrefix | http.hpp:183-191 | collapsing leaves a value with no tab, no double space and no leading space unchanged |
| HeaderValue.NormalizeFixesNormal | http.hpp:180-194 | an already clean value is left as it is |
| HeaderValue.NormalizeIdempotent | http.hpp:180-194 | cleaning a value twice gives the same as cleaning it once |
| HeaderValue.NormalizeValue | http.hpp:181-193 | the in-place loop plus trailing trim computes the cleaned value |
| HeaderValue.CollapseSnoc | http.hpp:184-190 | a non-blank byte is appended; a blank adds one space only after a non-space, otherwise nothing |
| HeaderValue.CollapsesBlankRun | http.hpp:184-187 | a run of spaces and tabs after a word becomes one space |
| HeaderValue.CollapsesRuns | http.hpp:182-192 | "a   b\t\tc" is cleaned to "a b c" |
| HeaderValue.CollapseAppendsWord | http.hpp:188-189 | a word without blanks is appended unchanged |
| HeaderValue.FoldsContinuation | http.hpp:180-194 | a value " v" with continuation "  w" appended is cleaned to "v w" |
| HeaderValue.CollapseDropsLeadingBlank | http.hpp:182-186 | a leading space or tab is dropped |
| HeaderValue.NormalizeAfterSpace | http.hpp:180-194 | the space after the colon is removed from a clean value |
| HeaderValue.Collapse | http.hpp:183-191 | definition: the loop over the raw bytes, where a space or tab adds one ' ' only after a non-space and any other byte is copied |
| HeaderValue.Normalize | http.hpp:180-194 | definition: the collapsed value with one trailing ' ' removed, as assigned back to the header |
| Text.NatToString | http.hpp:466 | the decimal digits of a number, at least one and without a leading zero |
| Text.IntToString | http.hpp:462 | digits, with a leading '-' exactly for a negative status code |
| Text.NatToStringValue | http.hpp:466 | the digits written denote the number |
| Text.SkipSpace | http.hpp:199 | the first index at or after the start that is not C whitespace, with only whitespace skipped |
| Text.DigitRun | http.hpp:199 | the end of the maximal run of decimal digits |
| Text.Stoul | http.hpp:199 | a value is returned only if it fits an unsigned long; no digits or an overflow is the throwing case |
| Text.StoulReadsNatToString | http.hpp:199 | stoul reads back what to_string wrote |
| Text.StoulStopsAtNonDigit | http.hpp:199 | stoul ignores whatever follows the digits |
| StartLine.Find | http.hpp:164-166 | the index of the first occurrence at or after the start, or none if there is none |
| StartLine.SplitRequestLine | http.hpp:164-170 | the line is refused iff it has no space at all |
| StartLine.SplitTwoSpaces | http.hpp:164-170 | "m SP u SP v" with space-free m and u splits into m, u and v |
| StartLine.SplitOneSpace | http.hpp:166-170 | with one space, the url runs to the end and the version is the whole line |
| StartLine.OneSpaceLineAccepted | http.hpp:166-171 | the one-space line "HTTP/1.1 /" passes the version check |
| StartLine.CheckedNeedsTwoSpaces | http.hpp:166-167 | the split that tests i2 accepts exactly the lines with two spaces, and agrees with the split as written on them |
| StartLine.SplitRequestLineChecked | http.hpp:164-170 | definition: the split with the second find tested, so a line without a second space is refused like one without a first |
| RequestParser.NormalizeAll | http.hpp:180-194 | every header keeps its name and position and gets its value cleaned |
| RequestParser.ScanContentLength | http.hpp:197-201 | the body count stays below 2^32, because a uint32_t truncates what stoul returns |
| RequestParser.EndOfHeaders | http.hpp:176-207 | a parser that keeps running is in a valid state |
| RequestParser.CompleteLine | http.hpp:158-225 | a parser that keeps running is in a valid state |
| RequestParser.RequestLineDone | http.hpp:161-174 | a parser that keeps running is in a valid state |
| RequestParser.HeaderLineDone | http.hpp:208-223 | a parser that keeps running is in a valid state |
| RequestParser.Step | http.hpp:154-235 | one byte keeps a running parser valid and finishes at most one request |
| RequestParser.Feed | http.hpp:153-238 | a parser that keeps running after the bytes is valid |
| RequestParser.FeedSnoc | http.hpp:154-236 | one more byte is one more step after the bytes before it |
| RequestParser.FeedStopsAfterFailure | http.hpp:153-238 | after a false return or a throw, later bytes change nothing |
| RequestParser.ScanSnoc | http.hpp:197-201 | each Content-Length field overwrites the count with its stoul value mod 2^32, and a bad one throws |
| RequestParser.ScanStopsAfterThrow | http.hpp:199 | once stoul has thrown, later headers are not looked at |
| RequestParser.IncomingRequest.constructor | http.hpp:142-149 | a new parser is in its initial state |
| RequestParser.IncomingRequest.Reset | http.hpp:150-152 | reset restores the initial state |
| RequestParser.IncomingRequest.ParseBytes | http.hpp:153-238 | the loop leaves the state, finished requests and status that Feed gives |
| RequestParser.IncomingRequest.ParseByte | http.hpp:154-235 | one byte updates the fields as Step says |
| RequestParser.IncomingRequest.ParseLine | http.hpp:155-225 | a completed line updates the fields as CompleteLine says |
| RequestParser.IncomingRequest.ParseRequestLine | http.hpp:161-174 | the request line updates the fields as RequestLineDone says |
| RequestParser.IncomingRequest.ParseHeaderLine | http.hpp:208-223 | a header line updates the fields as HeaderLineDone says |
| RequestParser.IncomingRequest.FinishHeaders | http.hpp:176-207 | the empty line updates the fields as EndOfHeaders says |
| RequestParser.IncomingRequest.NormalizeHeaders | http.hpp:180-194 | every header value is cleaned in place and nothing else changes |
| RequestParser.IncomingRequest.ReadContentLength | http.hpp:197-201 | the body count is set as ScanContentLength says, and the result reports whether stoul threw |
| ParserLines.FeedChunks | http.hpp:153-238 | parsing bytes in two calls gives the same as in one call |
| ParserLines.FeedIsRun | http.hpp:153-238 | Feed is the fold of the total step |
| ParserLines.RunChunks | http.hpp:154-236 | the fold of a concatenation is the fold of the second part from where the first stopped |
| ParserLines.StepAppends | http.hpp:155-158 | a byte that does not complete a CRLF is appended to the line |
| ParserLines.FeedPartialLine | http.hpp:155-158 | bytes without CRLF only accumulate in the line |
| ParserLines.StepCompletes | http.hpp:158-159 | LF after CR completes the line with the CRLF trimmed |
| ParserLines.FeedLine | http.hpp:155-159 | a line and CRLF is exactly one completed line |
| ParserLines.SkipsEmptyLine | http.hpp:162 | an empty line before the request line is ignored |
| ParserLines.RejectsLineWithoutSpace | http.hpp:164-165 | a request line without a space makes parse_bytes return false |
| ParserLines.ReadsRequestLine | http.hpp:161-174 | "m SP u SP v" sets method and url, then moves to headers iff v begins "HTTP/1.", otherwise fails |
| ParserLines.ReadsOneSpaceLine | http.hpp:166-171 | a one-space line is judged by the whole line's prefix, as written |
| ParserLines.RejectsOrphanContinuation | http.hpp:210-214 | a continuation line with no previous header fails |
| ParserLines.AppendsContinuation | http.hpp:210-215 | a continuation line is appended to the last header's value |
| ParserLines.RejectsFieldWithoutColon | http.hpp:217-220 | a field line without ':' fails |
| ParserLines.AppendsField | http.hpp:216-222 | "name:value" adds a header split at the first colon |
| ParserLines.EndsHeaders | http.hpp:176-207 | an empty header line ends the header block |
| ParserLines.ScanWithoutContentLength | http.hpp:197-201 | without Content-Length the body count is left as it was |
| ParserLines.LastContentLengthWins | http.hpp:197-201 | with several valid Content-Length fields the last one sets the count |
| ParserLines.NoThrowBefore | http.hpp:197-201 | if every Content-Length parses, stoul does not throw |
| ParserLines.ThrowsOnBadContentLength | http.hpp:199 | an unparsable Content-Length makes parsing throw |
| ParserLines.FinishesWithoutBody | http.hpp:203-207 | without Content-Length the request is finished at once with cleaned headers, and the parser resets |
| ParserLines.FeedsBody | http.hpp:227-230 | body bytes short of the count are appended and the count drops by their number |
| ParserLines.FinishesBody | http.hpp:227-235 | the last body byte finishes the request and resets the parser |
| ParserRoundTrip.Raw | http.hpp:221 | each parsed value keeps the space that follows the colon |
| ParserRoundTrip.FeedsField | http.hpp:216-222 | a well-formed "name: value" line adds that header |
| ParserRoundTrip.FeedsHeaders | http.hpp:208-223 | a run of well-formed field lines adds those headers in order |
| ParserRoundTrip.CleansRawHeaders | http.hpp:180-194 | cleaning recovers well-formed headers from their raw form |
| ParserRoundTrip.UniformContentLength | http.hpp:197-201 | if every Content-Length carries the same value, that value sets the count |
| ParserRoundTrip.ReadsBodyLength | http.hpp:197-204 | Content-Length fields written from the body length give exactly that count |
| ParserRoundTrip.CleansHeaderBlock | http.hpp:176-207 | the empty line finishes the request, or enters Body with the body length |
| ParserRoundTrip.ReadsHeaders | http.hpp:175-224 | header lines and the empty line give back the headers and the body mode |
| ParserRoundTrip.ReadsHeaderBlock | http.hpp:175-235 | the header block and the body yield the request and reset the parser |
| ParserRoundTrip.ParsesRequestBytes | http.hpp:153-238 | the bytes of a well-formed request parse back to that request |
| ParserRoundTrip.ReadsWellFormedRequestLine | http.hpp:161-174 | "m SP u SP HTTP/1.1" CRLF sets method and url and moves to headers |
| ParserRoundTrip.ParsesPipelinedRequests | http.hpp:153-238 | two requests back to back are both finished, in order |
| ParserRoundTrip.ChunkBoundaryIrrelevant | http.hpp:153-238 | splitting a request's bytes across two recv calls at any point gives the same request |
| MessageQueue.Flush | http.hpp:419-440 | the queue shrinks, slots only disappear, queued ids stay live, and the socket is kept or closed |
| MessageQueue.FlushPopsReadyFront | http.hpp:419-438 | a prefix of the queue was popped, and every popped message was ready |
| MessageQueue.FlushEndsPoppedSlots | http.hpp:435-437 | exactly the popped messages' slots are released |
| MessageQueue.FlushKeepsRest | http.hpp:419-440 | every slot except the new head is unchanged |
| MessageQueue.FlushTrimsHead | http.hpp:434 | the new head keeps its ready flag and loses a prefix of its data |
| MessageQueue.FlushWaitsForReadyHead | http.hpp:419 | nothing is sent while the head message is not ready |
| MessageQueue.FlushConserves | http.hpp:419-440 | the bytes sent plus the bytes still queued are the bytes queued before |
| MessageQueue.FlushClosesOnError | http.hpp:425-432 | a send error or a strange count closes the socket and leaves the queue |
| MessageQueue.FlushTrimsPartialSend | http.hpp:433-434 | a partial send erases the sent prefix and goes on with the rest |
| MessageQueue.SendPassAsWritten | http.hpp:420-439 | a pass of the loop as written that asks to stop leaves everything as it was |
| MessageQueue.SendErrorSpinsAsWritten | http.hpp:419-432 | after a close, the loop as written keeps calling send on INVALID_SOCKET and never stops |
| MessageQueue.SendErrorClosesAsWritten | http.hpp:425-432 | a send error closes the socket but leaves the head ready, so the loop as written goes on |
| MessageQueue.HeadReady | http.hpp:419 | definition: the loop condition, a first message that exists and is ready |
| MessageQueue.RunAsWritten | http.hpp:419-440 | definition: k passes of the send loop exactly as written, stopping at a break or when the head is not ready |
| MessageQueue.FlushEqualMessagesApart | http.hpp:419-440 | two equal ready messages can meet different send results: the first is sent whole, the second waits |
| Response.Fresh | http.hpp:79-85 | a new response has code 200, reason "OK", no headers and an empty body |
| Response.BuildMessage | http.hpp:461-468 | the loop builds the status line, the headers, Content-Length, the empty line and the body |
| Response.SerializeFrames | http.hpp:461-468 | the message is a status line followed by a header block that ends with Content-Length |
| Response.ContentLengthCountsBody | http.hpp:466 | the appended Content-Length gives the body length to a parser |
| Response.ReadsResponseHeaderBlock | http.hpp:463-468 | the request parser reads the header block back, with the body |
| Response.ReadsStatusCode | http.hpp:462 | the message starts "HTTP/1.1 " followed by the status code |
| Response.StatusLineCode | http.hpp:462 | the status line's code reads back with stoul |
| Response.Deliver | http.hpp:455-475 | the set of slots does not change, and only the response's own slot can change |
| Response.DeliverFillsSlot | http.hpp:470-473 | a live slot becomes ready, holding the serialized message |
| Response.DeliverToExpiredSlot | http.hpp:457-458 | a response whose slot is gone changes nothing |
| Response.DeliverKeepsQueues | http.hpp:455-475 | another connection's pending bytes are unchanged |
| Response.StatusLine | http.hpp:462 | definition: "HTTP/1.1 ", the decimal code, a space, the reason and CRLF |
| Response.Serialize | http.hpp:461-468 | definition: the status line, each handler header as "name: value" CRLF in order, Content-Length of the body, an empty line and the body |
| Poll.AnswerIsDelivered | http.hpp:399-405 | a request answered at once fills its fresh slot at once |
| Poll.DispatchShape | http.hpp:392-406 | each request queues a fresh slot, in order, and older slots are untouched |
| Poll.HandleOneKeeps | http.hpp:392-406 | handling a request does not disturb an earlier reply |
| Poll.DispatchReplies | http.hpp:392-406 | the k-th request's slot holds the handler's reply to it |
| Poll.DispatchKeepsDeferred | http.hpp:401-405 | a deferred request's response is kept for later |
| Poll.DispatchKeepsOnlyDeferred | http.hpp:401-405 | only deferred requests' responses are kept |
| Poll.DispatchCounts | http.hpp:392-406 | one slot id is used per request |
| Poll.HandleOneReplies | http.hpp:399-405 | the new slot holds the handler's reply |
| Poll.GrowKeepsGood | http.hpp:394-404 | queueing fresh slots behind a connection keeps the slot-table invariant |
| Poll.GrowQueue | http.hpp:394-404 | the grown queue's ids are all live |
| Poll.GrowDisjoint | http.hpp:394-404 | queues stay pairwise disjoint |
| Poll.GrowOwned | http.hpp:394-404 | every live slot is still owned by a queue |
| Poll.ShrinkKeepsGood | http.hpp:433-438 | popping sent messages and releasing their slots keeps the invariant |
| Poll.ShrinkQueues | http.hpp:433-438 | the remaining queues' ids are all live |
| Poll.ShrinkDisjoint | http.hpp:433-438 | queues stay pairwise disjoint |
| Poll.ShrinkOwned | http.hpp:433-438 | every live slot is still owned |
| Poll.AcceptKeepsGood | http.hpp:349-366 | accepting a connection keeps the invariant, and all sockets stay open |
| Poll.ReceiveAt | http.hpp:373-412 | receiving on one connection leaves every other connection unchanged |
| Poll.ReceiveFrom | http.hpp:373-413 | the receive loop keeps the number of connections |
| Poll.ReceiveAtKeepsGood | http.hpp:376-411 | receiving on one connection keeps the invariant unless stoul threw, and slot ids only grow |
| Poll.ReceiveFromKeepsGood | http.hpp:373-413 | the whole receive loop keeps the invariant unless stoul threw |
| Poll.SendAt | http.hpp:416-440 | the send phase for one connection keeps the number of connections |
| Poll.SendAtKeepsGood | http.hpp:416-440 | sending on one connection keeps the invariant |
| Poll.SendFrom | http.hpp:415-441 | the send loop keeps the number of connections |
| Poll.SendFromKeepsGood | http.hpp:415-441 | the whole send loop keeps the invariant |
| Poll.ReapKeepsOpen | http.hpp:443-450 | exactly the connections with an open socket survive |
| Poll.ReapKeepsOrder | http.hpp:444-450 | the survivors keep their order |
| Poll.ReapDisjoint | http.hpp:443-450 | the surviving queues are still disjoint |
| Poll.ReapEndsSlots | http.hpp:443-450 | exactly the slots of closed connections are released, and the others are unchanged |
| Poll.ReapKeepsGood | http.hpp:443-450 | reaping keeps the invariant and leaves only open sockets |
| Poll.ReapQueues | http.hpp:443-450 | the surviving queues' ids are all live |
| Poll.ReapOwned | http.hpp:443-450 | every remaining slot is owned by a survivor |
| Poll.DeliverKeepsGood | http.hpp:455-475 | a response delivered between polls keeps the invariant |
| Poll.PollKeepsGood | http.hpp:308-453 | one poll keeps the invariant and leaves only open sockets, unless stoul threw |
| Poll.PollTimeout | http.hpp:342-346 | a select timeout changes nothing |
| Poll.ReadInterest | http.hpp:317-322 | definition: the listening socket and every connection's socket |
| Poll.WriteInterest | http.hpp:320-325 | definition: the sockets of connections whose first message exists and is ready |
| Poll.Accept | http.hpp:349-366 | definition: when the listening socket is readable and accept succeeds, a new connection with an empty queue and a fresh parser is appended; otherwise nothing changes |
| Poll.Close | http.hpp:389-390 | definition: the connection's socket becomes INVALID_SOCKET; it stays in the list until reaped |
| Poll.ReplyMessage | http.hpp:399-405 | definition: an answered request's slot holds the serialized response and is ready; a deferred one's slot is empty and not ready |
| Poll.HandleOne | http.hpp:392-406 | definition: the next slot id is appended to the connection's queue and bound to a new response; a deferred response is kept |
| Poll.Dispatch | http.hpp:392-406 | definition: HandleOne applied to each completed request in order |
| Poll.ReapAll | http.hpp:443-450 | definition: the reaping loop, erasing each closed connection and ending the slots its queue held |
| Poll.Reap | http.hpp:443-450 | definition: ReapAll applied to the world's connections and slots, keeping the next slot id |
| Poll.PollOnce | http.hpp:308-453 | definition: the watched sets, select, then accept, receive, send and reap; a timeout returns at once and a stoul exception skips the rest |
| HttpServer.Server.constructor | http.hpp:101-114 | a new server has its listen socket, no connections and is not polling |
| HttpServer.Server.WatchSets | http.hpp:313-326 | read interest is the listen socket and every connection; write interest is the connections whose head message is ready |
| HttpServer.Server.Dispose | http.hpp:455-475 | a response outliving its poll fills its slot, nothing else changes, and the server invariant is kept |
| HttpServer.Server.DisposeKeepsValid | http.hpp:455-475 | delivering between polls keeps the server invariant |
| HttpServer.Server.HandRequests | http.hpp:392-406 | inside a poll, the dispatch loop updates the slot table and the counter as Dispatch says |
| HttpServer.Server.ReceiveOne | http.hpp:374-412 | inside a poll, receiving on one connection updates the fields as ReceiveAt says |
| HttpServer.Server.ReceiveAll | http.hpp:373-413 | inside a poll, the receive loop updates the fields as ReceiveFrom says |
| HttpServer.Server.SendOne | http.hpp:417-440 | the send loop for one connection updates the fields as SendAt says |
| HttpServer.Server.SendAll | http.hpp:416-441 | the send phase updates the fields as SendFrom says |
| HttpServer.Server.ReapClosed | http.hpp:444-450 | the reap loop updates the fields as Reap says |
| HttpServer.Server.Poll | http.hpp:308-453 | a poll updates the fields as PollOnce says, keeps the invariant, and leaves `polling` set only when stoul threw |
| JsonString.EscapeAppend | tweak.cpp:314-320 | escaping distributes over concatenation |
| JsonString.EscapeLength | tweak.cpp:314-320 | escaping adds one byte per '"' or '\\' |
| JsonString.QuoteShape | tweak.cpp:309-323 | the output starts and ends with a quote and is longer by two plus the escapes |
| JsonString.Utf8ToJson | tweak.cpp:309-323 | the loop produces the quoted, escaped string |
| JsonString.EscapeChar | tweak.cpp:315-319 | definition: '"' and '\\' get a backslash before them; any other byte is copied |
| JsonString.Escape | tweak.cpp:314-320 | definition: EscapeChar applied to each byte in order |
| JsonString.Quote | tweak.cpp:309-323 | definition: the escaped bytes between two quotes, the string utf8_to_json returns |
| JsonString.HexDigit | tweak.cpp:234-237 | an accepted hex digit has a value below 16 |
| JsonString.HexFrom | tweak.cpp:231-239 | an accepted escape has a value below 0x10000 and four input bytes |
| JsonString.Hex4 | tweak.cpp:229-242 | four accepted hex digits give a value below 0x10000 |
| JsonString.HexFromDigits | tweak.cpp:229-242 | four digits that spell v are read as v |
| JsonString.ReadsLowerHex4 | tweak.cpp:234-235 | lower-case hex spelling of v is read as v in both dialects |
| JsonString.ReadsUpperHex4 | tweak.cpp:236 | upper-case hex spelling of v is read as v once the range is 'A'..'F' |
| JsonString.HexAsWrittenAcceptsLowercaseOnly | tweak.cpp:233-237 | as written, read_hex4 succeeds iff the next four bytes are digits or 'a'..'f' |
| JsonString.UppercaseHexRefusedAsWritten | tweak.cpp:236-237 | as written, "00C9" is refused as an invalid hex digit |
| JsonString.ReadHex4 | tweak.cpp:229-242 | the lambda's loop returns the value or the exact error message of Hex4 |
| JsonString.PairValue | tweak.cpp:271 | a combined surrogate pair lies between the dialect's base and 0x10FFFF |
| JsonString.TwoByteLead | tweak.cpp:278 | the lead byte's payload is below 32 |
| JsonString.Continuation | tweak.cpp:279-288 | n continuation bytes are produced |
| JsonString.Utf8 | tweak.cpp:275-291 | a code point is written in one to four bytes |
| JsonString.Unicode | tweak.cpp:257-273 | a decoded \u escape consumes input and yields a code point at most 0x10FFFF |
| JsonString.Next | tweak.cpp:248-297 | each decoding step consumes at least one byte |
| JsonString.ScanRest | tweak.cpp:247 | the decoding loop stops at a suffix of the input, which is empty or starts with '"' unless decoding failed |
| JsonString.SimpleEscape | tweak.cpp:251-256 | definition: the byte a one-letter escape stands for ('"', '\\', '/', b, f, n, r, t), or none |
| JsonString.Scan | tweak.cpp:247-298 | definition: the decoding loop, stopping at a closing quote, at the end of the input, or at the first error |
| JsonString.Pass | tweak.cpp:248-297 | definition: one pass at a byte that is not a quote, its output followed by the rest of the loop |
| JsonString.Decode | tweak.cpp:224-307 | definition: json_to_utf8, with its four messages for the opening quote, the loop, the closing quote and trailing bytes |
| JsonString.AcceptedIsQuoted | tweak.cpp:245-301 | an accepted input starts and ends with a quote |
| JsonString.ScanStep | tweak.cpp:247-298 | the loop is one step followed by the loop on the rest |
| JsonString.NextEscapeChar | tweak.cpp:251 | an escaped or plain byte decodes to itself |
| JsonString.ScanEscapeChar | tweak.cpp:251 | decoding an escaped byte yields it and goes on |
| JsonString.ScanEscapeCons | tweak.cpp:247-298 | the escape of a non-empty string decodes back to it, given its tail does |
| JsonString.ScanEscape | tweak.cpp:247-298 | the escaped bytes decode back to the original bytes |
| JsonString.DecodeQuote | tweak.cpp:224-307 | json_to_utf8 inverts utf8_to_json on every byte string, in both dialects |
| JsonString.MissingClosingQuote | tweak.cpp:299 | without a closing quote the error is "String doesn't end with quote." |
| JsonString.BackslashAtEnd | tweak.cpp:250 | a final backslash gives "End-of-string follows backslash." |
| JsonString.TrailingBytes | tweak.cpp:301 | bytes after the closing quote give "Trailing characters after string." |
| JsonString.NoOpeningQuote | tweak.cpp:245 | input not starting with '"' gives "String doesn't start with quote." |
| JsonString.ScanSimpleEscape | tweak.cpp:251-256 | \b \f \n \r \t \/ decode to their control or literal byte |
| JsonString.DropsUnknownEscape | tweak.cpp:248-293 | an unknown escape drops the backslash and keeps the byte |
| JsonString.NextUnicode | tweak.cpp:257-292 | a \u escape decodes to the UTF-8 bytes of its code point, or fails with its error |
| JsonString.UnicodeSingle | tweak.cpp:257-260 | a non-surrogate escape decodes to its value |
| JsonString.UnicodeTwo | tweak.cpp:261-273 | a high surrogate followed by \u and a low surrogate combines, and otherwise fails with "Missing second half of surrogate pair." |
| JsonString.ScanUEscape | tweak.cpp:257-292 | decoding a \u escape appends the code point's UTF-8 and goes on |
| JsonString.NextPair | tweak.cpp:261-292 | a surrogate-pair escape decodes to the pair's UTF-8 or fails |
| JsonString.ScanPair | tweak.cpp:261-292 | decoding a surrogate pair appends its UTF-8 and goes on |
| JsonString.HighWithoutLow | tweak.cpp:268-270 | a high surrogate followed by a non-low escape fails with "Missing second half of surrogate pair." |
| JsonString.HighSurrogateNeedsLow | tweak.cpp:261-270 | a high surrogate decodes iff it is followed by a backslash, a 'u' and four hex digits that form a low surrogate |
| JsonString.HighWithoutU | tweak.cpp:262-264 | a high surrogate and a backslash not followed by 'u' fail with "Missing 'u' in second part of surrogate pair." |
| JsonString.HighThenBadHex | tweak.cpp:265-267 | a high surrogate followed by a malformed second escape fails with read_hex4's message |
| JsonString.LoneHighSurrogate | tweak.cpp:262 | a high surrogate not followed by a backslash fails with "Missing backslash in second part of surrogate pair." |
| JsonString.Utf8Intended | tweak.cpp:275-291 | the corrected encoder writes each value in the length RFC 3629 gives it, in bits that spell it, and the result is well formed exactly when the value is not a surrogate |
| JsonString.Utf8Three | tweak.cpp:280-283 | three-byte sequences spell the value, and are well formed exactly when it is not a surrogate |
| JsonString.LoneLowSurrogateAccepted | tweak.cpp:257-283 | a low-surrogate escape without a high one before it passes the test at 261, and its three bytes, which are not well-formed UTF-8, are appended in both dialects |
| JsonString.LoneLowSurrogateDecoded | tweak.cpp:224-307 | `"\udc00"` is accepted and ED B0 80 is appended, in both dialects |
| JsonString.Utf8Four | tweak.cpp:284-288 | four-byte sequences are well formed and decode to the code point |
| JsonString.Utf8AsWrittenOutsideTwoBytes | tweak.cpp:275-291 | the encoder as written differs from the corrected one only on two-byte code points |
| JsonString.TwoByteAsWritten | tweak.cpp:277-279 | as written, `"\u00e9"` decodes to C1 A9, which is not UTF-8 and does not denote U+00E9 |
| JsonString.TwoByteBytes | tweak.cpp:278-279 | U+00E9 is C1 A9 as written and C3 A9 when corrected |
| JsonString.PairIntended | tweak.cpp:271 | with base 0x10000 the pair of any supplementary code point combines back to it (UTF-16 decoding) |
| JsonString.PairAsWritten | tweak.cpp:271 | as written, a combined pair is 0xF000 below its UTF-16 value |
| JsonString.EmojiPair | tweak.cpp:261-292 | `"\ud83d\ude00"` decodes to U+10600 as written and to U+1F600 when corrected |
| JsonString.DecodesCodePoint | tweak.cpp:257-292 | every code point written as a \u escape or a surrogate pair decodes to its UTF-8 when corrected |
| JsonString.ReadUnit | tweak.cpp:248-297 | one pass of the loop body consumes the bytes and produces the output that Next gives, or its error |
| JsonString.ReadUnicode | tweak.cpp:257-273 | the \u branch reads what Unicode reads, or reports its error |
| JsonString.ReadLowHalf | tweak.cpp:262-273 | the second half of a pair is read as Unicode says |
| JsonString.JsonToUtf8 | tweak.cpp:224-307 | the result is true iff Decode succeeds, the output is extended by the decoded bytes, and the error is Decode's |
| JsonString.DecodeLoop | tweak.cpp:247-298 | the loop stops where Scan stops and appends Scan's output |

## Left out

- Socket creation, `bind`, `listen` and Winsock start-up in `server::server`, and closing the listen socket in `~server`, are left out. They are operating-system calls; the constructor takes the listen socket as a parameter.
- The conversion of the `select` timeout from seconds to a `timeval`, and the `max + 1` descriptor bound, are left out. `select` is a function of the two watched sets in `Environment`.
- The Windows branches (`ioctlsocket`, `WSAStartup`) and all logging to `std::cerr`/`std::cout` are left out.
- The reuse of `buffer` between polls is not modelled; `recv` returns at most `BufferSize` bytes or an error.
- The `std::atomic` ready flag and its memory orders are left out. The model is single-threaded, so a response is delivered either during the handler call (answered) or between polls (`Dispose`).
- The walk to the tail of the `shared_ptr` message list is a sequence append, and `std::list::erase` is a filter. Node identity and aliasing are not modelled.
- `shared_ptr`/`weak_ptr` lifetime is modelled as a slot table with never-reused ids; a response can lock its slot while some queue still holds the id.
- The request handler is a pure function `Request -> Reply`. Callbacks that re-enter `poll` are excluded: `Poll` requires `!polling`, as the source asserts.
- HttpServer.Server.Poll: when `std::stoul` throws inside the receive loop, the exception leaves `poll` with `polling` still set. The model stops the poll there and reports `threw`; it does not model what the caller does with the exception.
- The response's `weak_message` is modelled by its `slot` field; the destructor firing at scope exit is the explicit call `Deliver`.
- JsonString.JsonToUtf8 always returns the error message; the C++ caller's choice to pass `error == nullptr` is not modelled. The bytes written to `out` before a failure are kept, as in the source.
- The `assert(*_out)` at the head of `json_to_utf8` refers to an undeclared name; the model treats it as absent.
- The tweak registry, its threads, and the HTTP handler built on top of it in `tweak.cpp` are not part of this model.
- Bytes are `char`s below 256; `std::string` of signed `char` is not distinguished from unsigned bytes.
- Content-Length: an unparsable value makes `std::stoul` throw, and the model follows the code (status `Threw`) rather than reading the value as zero.
- StartLine.SplitRequestLine: the request parser keeps the split as written. The corrected split, StartLine.SplitRequestLineChecked, is proved apart and is not wired into the parser; the quirk accepts only one-space lines that begin "HTTP/1.".
- `send` is an oracle of the socket, the number of earlier `send` calls on that connection in the same poll, and the bytes offered. Two open connections are taken to have distinct socket numbers, as the operating system guarantees; connections sharing a number would be given the same answers.
- Linkage and default arguments are not modelled: `json_to_utf8` and `utf8_to_json` are declared without `static` at tweak.cpp:39-40 but defined `static` at 224 and 309, and the default `error = nullptr` is given at both 39 and 224. The model has one definition of each function.
- JsonString.Decode: a lone low-surrogate escape such as `\udc00` is accepted in both dialects, and its three bytes (ED B0 80) are appended, although they are not well-formed UTF-8 (`JsonString.LoneLowSurrogateAccepted`). The source gives no error for this case, so the model does not add one. The decoder's output is therefore well-formed UTF-8 only for input without such escapes.
- Text.Stoul: `unsigned long` is taken to be 64 bits wide, as on LP64 targets. The `_WIN32` build, where it is 32 bits, is not modelled: there `std::stoul("4294967296")` throws `out_of_range`, while the model returns 2^32, which the parser then truncates to a body count of 0.

## Findings

| source | as written | input that shows it | evidently intended | confidence | as-written member | corrected member |
|---|---|---|---|---|---|---|
| tweak.cpp:278 | the two-byte lead byte is `0xC0 \| (val >> 7)` | `"\u00e9"` decodes to C1 A9, an overlong and malformed sequence | `val >> 6`, giving C3 A9 | high, not executed | JsonString.TwoByteAsWritten | JsonString.Utf8Intended |
| tweak.cpp:271 | a surrogate pair combines as `0x01000 + ...` | `"\ud83d\ude00"` decodes to U+10600 | `0x10000 + ...`, giving U+1F600 | high, not executed | JsonString.PairAsWritten | JsonString.PairIntended |
| tweak.cpp:236 | the upper-case test is `*c >= 'a' && *c <= 'F'`, an empty range | `"\u00C9"` is refused with "Unicode escape contains invalid hex digit." | `*c >= 'A' && *c <= 'F'` | high, not executed | JsonString.UppercaseHexRefusedAsWritten | JsonString.ReadsUpperHex4 |
| http.hpp:167 | the second `find` is checked with `i1 == npos` instead of `i2 == npos` | the request line "HTTP/1.1 /" is accepted, with method "HTTP/1.1" and the whole line as version | a line without a second space is refused | high, not executed | StartLine.OneSpaceLineAccepted | StartLine.CheckedNeedsTwoSpaces |
| http.hpp:425-432 | after a send error the socket is closed but the loop does not break | `send` returns -1 with an errno other than EAGAIN while the head message is ready: the loop calls `send` on INVALID_SOCKET forever | leave the loop once the socket is closed | medium, not executed | MessageQueue.SendErrorSpinsAsWritten | MessageQueue.FlushClosesOnError |

The corrected members are the ones the rest of the model builds on:
- the server's send phase (`Poll.SendAt`, `HttpServer.Server.SendOne`) uses `MessageQueue.Flush`, which stops after closing;
- the JSON decoder is stated for both dialects, and the round-trip and UTF-8 lemmas are proved for `Intended`.
