# Nowin, verified

A Dafny model of the byte-level and concurrent core of the Nowin web server, with proofs. Nowin
multiplexes an HTTP/1.1 and WebSocket connection through one fixed slice of a shared buffer: a receive
region, a header region and a body region with a few spare bytes. Encoders and decoders work in place on
that slice, and two cooperating objects, `SaeaLayerCallback` and `Transport2HttpHandler`, hand the
connection slot from one client to the next.

The code that updates fields and buffers is modelled by classes whose methods do the same updates and are
proved against functions on values. The main results are lemmas about those functions: over every run of
calls, every cut of the stream into receives, every interleaving of steps.

| file | subject |
|---|---|
| `Bytes.dfy` | bytes, byte arrays, block copies |
| `ChunkedDecoder.dfy`, `ChunkedBody.dfy`, `ChunkEncoder.dfy` | chunked coding in both directions (section 4.1 of RFC 7230) |
| `ResponseSpec.dfy`, `ResponseTheorems.dfy`, `ResponseReuse.dfy`, `ResponseChannel.dfy` | a response: as a value, over all runs, when the connection is reused, in place |
| `ResponseWire.dfy`, `ResponseClient.dfy`, `ResponseHead.dfy` | what a client reads from a header block, from every answer and behind it, and the same for HEAD |
| `RequestEnd.dfy`, `Input.dfy`, `BodyReader.dfy`, `Receiver.dfy` | where a head ends, the reference for the incoming stream, reading bodies, the receive loop in place |
| `ParsePath.dfy`, `RequestHeaders.dfy`, `RequestHead.dfy`, `RequestParser.dfy` | paths to UTF-16, what the header fields mean, the head as a value with its print/parse round trip, the parser in place |
| `Connection.dfy` | parser and receiver together: how the bytes behind a head are read, and where the next request begins |
| `Slot.dfy`, `Server.dfy` | the accept duty of one slot, the server's counter and growth, one buffer for a block of slots |
| `WebSocketHeader.dfy`, `WebSocketSend.dfy`, `WebSocketReceive.dfy` | masking and headers, the fragmenting sender, the receiver (sections 5.2 to 5.4 of RFC 6455) |
| `Environment.dfy` | the OWIN environment against a plain map |

## How the model is built

- Every lock block, and every compare-and-swap loop with the call and the assignments behind it, is one
  atomic step. Test-and-clear of `_afterReceiveContinueWithAccept` is one step. The completion of a task is
  an event after the current step. The application awaits its writes, flushes and reads.
- Operations of the operating system are nondeterministic completion events or parameters: how many bytes
  a receive brings, whether an accept or a receive succeeds, when a disconnect is done.
- C# integer widths are written out where they matter: the 64-bit counters of the chunk decoder and their
  cast to `int`, shifts of `int` by more than 31, `(byte)` and `(char)` casts.
- Text that the parser takes as Latin-1 is a sequence of bytes; UTF-16 text is a sequence of 16-bit units,
  because the `char` of Dafny has no surrogates.

## Where the code falls short of what one would expect

Each of these is proved, with the exact condition under which the code does meet the expectation.

- **End of the head.** After a CR the scanner swallows the next byte without looking whether it is a CR. It
  finds the first CR LF CR LF exactly when an even number of CRs stands directly before it
  (`ScanFindsFirstIffEvenRun`, `HiddenBlankLine`).
- **Lost flush.** A flush whose header block does not fit throws and drops the buffered bytes, but
  `ResponseLength` still counts them. If the application swallows the exception and finishes, the connection
  can be reused with a Content-Length that is too large (`FailedFlushThenReuse`). Bytes are missing exactly
  if some refused flush found the buffer non-empty (`LostIffDropped`).
- **Left-over chunking.** The refused flush may also have decided on chunked coding, and only the next
  request turns that off again. If the application then declares a length and flushes once more, its three
  bytes go out as a chunk behind `Content-Length: 3`, and the connection is reused
  (`RefusedFlushThenLength`).
- **Bytes behind 204, 304 and HEAD.** A client takes such a response to end behind the header block. The code
  treats the two statuses like any other: a flush sends chunked coding and the zero chunk
  (`FlushedNoContent`), and bytes that were written go out. `ReuseIsFramed` says exactly when a reused
  response is well framed: the last three cases and no others break it. `ReusedExactly` says exactly when
  the connection is reused. A response to HEAD is followed by the zero chunk exactly if a flush has sent the
  header block with chunked coding on (`HeadIsFramed`, `FlushedHead`).
- **Clipped chunked body.** A Content-Length behind `Transfer-Encoding: chunked` limits how much of the chunked
  body is read. If it does not exceed the decoded length, the last bytes of the body are taken for the next
  request; with `Content-Length: 1` that is nearly all of it (`ClippedConnection`). The next
  request is found behind the body if and only if no Content-Length follows the last chunked field or the last
  one that does exceeds the decoded length (`ChunkedRequestIsRead`).
- **Lost accept.** `ProcessReceive` sets `_receiving` inside the lock, and `FinishReceive` tests
  `_afterReceiveContinueWithAccept` outside of it. If the disconnect completes between the two,
  `RealPrepareAccept` postpones itself to a receive that is then never started, and the slot never accepts
  again. `AcceptCanBeLost` gives a run: a request is answered and its connection closed while the thread that
  handled the request is about to start the next receive. Two steps lead there and no others
  (`DoomedExactlyAfterMisstep`); from every other state the next accept can be reached
  (`RearmedIffNotDoomed`).
- **Read behind the end.** A read that has to wait has a receive going on if and only if the client has not
  closed its side (contract of `ReadAsync`). Behind the end it waits for ever: reads are cancelled only when
  the client closes (`ReadBehindTheEnd`).
- **Opcode of later fragments.** `_webSocketNextSendIsStartOfMessage` never becomes false, because a send
  that is not final always returns early. A message sent in several calls is well fragmented exactly when
  its non-final calls fit the buffer together (`MessageWellFormedIffPartsFit`).
- **64-bit WebSocket length.** The shifts are done on `int`; the length is right exactly below 2^31
  (`Length64IsExactBelow2To31`).
- **Incomplete WebSocket header.** It starts no further receive. A receive of the application that waits for
  a header hangs exactly if the next data end inside that header (contract of `FinishReceiveData`); the first
  byte of a text frame alone is enough (`HeaderCutByReceive`). What is proved about received frames is
  therefore safety.
- **`Add` on a built-in key** of the environment replaces the value instead of throwing
  (`AddReplacesBuiltIn`).

## Model

| member | source | states |
|---|---|---|
| Chunked.ChunkedDecoder.ProcessByte | Nowin/ChunkedDecoder.cs:41-111 | one byte of framing changes the three fields as the transition function says; true exactly when the body has ended |
| Chunked.ChunkedDecoder.DataAvailable | Nowin/ChunkedDecoder.cs:32-39 | the available count, clipped to an int above and cast below |
| Chunked.WhatIsAvailable | Nowin/ChunkedDecoder.cs:32-39 | the caller sees the 64-bit counter itself wherever an int can hold it, else as much as an int can |
| Chunked.ChunkedDecoder.DataEatten | Nowin/ChunkedDecoder.cs:113-116 | subtracts from the 64-bit counter |
| Chunked.DecodeSplit | Nowin/ChunkedDecoder.cs:25-116 | decoding a stream does not depend on where it is cut |
| ChunkedBody.SizeLine | Nowin/ChunkedDecoder.cs:41-72 | when a size line ends, with or without extension, the decoder reports exactly the size of the chunk, for all sizes below 2^63 |
| ChunkedBody.StrayCrIsSkipped | Nowin/ChunkedDecoder.cs:60-72 | a CR ends a size line only together with the LF behind it; with any other byte both are skipped |
| ChunkedBody.ChunkDecodes | Nowin/ChunkedDecoder.cs:41-111 | a rendered chunk yields its data and leaves the decoder as at the start of a body |
| ChunkedBody.BodyDecodes | Nowin/ChunkedDecoder.cs:25-116 | every well-formed body with extensions and trailers decodes to its payload and leaves exactly what follows it |
| ChunkedBody.EndsOnFinalByte | Nowin/ChunkedDecoder.cs:41-111 | the decoder is finished after a prefix of a body if and only if the prefix is the whole body |
| ChunkEncoder.HexDigitsValue | Nowin/Transport2HttpHandler.cs:887-905 | the size digits written for a block are read back as its size |
| ChunkEncoder.HexDigitsLength | Nowin/Transport2HttpHandler.cs:887-905 | five digits are enough for every buffer size, so the spare bytes suffice |
| ChunkEncoder.EncodedBodyDecodes | Nowin/Transport2HttpHandler.cs:759-768 | encoder against decoder: blocks and the zero chunk decode to the concatenated blocks, whatever follows |
| ChunkEncoder.UnterminatedBody | Nowin/Transport2HttpHandler.cs:887-905 | without the zero chunk all data is decoded and the body has not ended |
| ChunkEncoder.WriteDigitsBefore | Nowin/Transport2HttpHandler.cs:887-905 | writes the digits backwards in front of the block and nothing else |
| ChunkEncoder.WrapInChunk | Nowin/Transport2HttpHandler.cs:887-905 | the block becomes one chunk in place; nothing outside of it changes |
| ChunkEncoder.AppendZeroChunk | Nowin/Transport2HttpHandler.cs:759-768 | five bytes behind the block, nothing else changes |
| ChunkEncoder.OptimallyMergeTwoRegions | Nowin/Transport2HttpHandler.cs:907-920 | header directly followed by body, inside the two regions and what lies between; the shorter one moves |
| ResponseTheorems.RunKeeps | Nowin/ReqRespStream.cs:194-252 | every run of writes, flushes and header changes keeps the invariant: header block, framed blocks, buffered tail and dropped bytes account for every byte |
| ResponseTheorems.DirectKeeps | Nowin/ReqRespStream.cs:230-243 | behind the flush of a full buffer the body region is empty, and the direct write that may follow keeps the order |
| ResponseTheorems.OverflowIsAllowed | Nowin/ReqRespStream.cs:230-243 | a write never hands the caller's own block to WriteAsync where that refuses it |
| ResponseReuse.SentDropsNothing | Nowin/Transport2HttpHandler.cs:830-885 | calls that succeed drop no byte |
| ResponseReuse.WrittenInOrder | Nowin/ReqRespStream.cs:206-252 | while no call fails, blocks handed over followed by the buffered tail are everything written, and ResponseLength is its length |
| ResponseReuse.KeptIsAccepted | Nowin/Transport2HttpHandler.cs:830-885 | unless the connection is closed, they are exactly what was written since the last refused flush |
| ResponseClient.ReuseIsFramed | Nowin/Transport2HttpHandler.cs:712-757 | over every run and ending, headers changing at will, the client reads a header block on a reused connection and behind it what it announces, if and only if: under 204 and 304, no chunking and no byte kept; otherwise, no Content-Length follows a refused flush that dropped bytes or, another flush sending the headers, had turned chunking on |
| ResponseClient.ClientReads | Nowin/Transport2HttpHandler.cs:576-664 | over every run and ending that does not close the connection: status, reason, length, chunking, Connection, Server, Date and every other field on the wire are those the application asked for at the first flush that was not refused, or at the end; or it is the fixed error answer, exactly if the task has failed, the request was cancelled or the header block does not fit |
| ResponseClient.CloseIsHonoured | Nowin/OwinHandler.cs:261-274 | a response opened or finished under Connection: close is never followed by another one |
| ResponseWire.HeaderBlockIsRead | Nowin/Transport2HttpHandler.cs:576-674 | read line by line and digit by digit, every header block says what was decided: status, reason, Content-Length exactly if there is one, chunked coding exactly for HTTP/1.1 without it, close or keep-alive, all fields in order, up to the blank line |
| ResponseWire.FieldsAreRead | Nowin/Transport2HttpHandler.cs:641-661 | a client that looks up a name finds all values given under it, in order |
| ResponseWire.ErrorIsRead | Nowin/Transport2HttpHandler.cs:779-797 | the fixed error answer is read as a complete 500 without a body |
| ResponseReuse.LostIffDropped | Nowin/Transport2HttpHandler.cs:830-850 | unless the connection is closed, bytes are missing if and only if some flush of a non-empty buffer met the guard for an over-long header block |
| ResponseReuse.RunDecides | Nowin/Transport2HttpHandler.cs:576-664 | the header block that is sent is the one due at the first flush that is not refused; chunking is older than that exactly if a refused flush had turned it on |
| ResponseReuse.ReusedExactly | Nowin/Transport2HttpHandler.cs:1414-1450 | over every run and ending: the connection is reused if and only if nothing asks to close, neither 599, 5000 nor a cancelled request ends it, the declared length is the number of bytes counted, an undeclared one is not sent to HTTP/1.0 ahead of the end, and the last header block fits |
| ResponseReuse.SecondAttempt | Nowin/OwinHandler.cs:261-288 | a refused flush has taken Connection and Content-Length out of the headers, and what they asked for stands for the next one |
| ResponseReuse.ConcludeOrAbort | Nowin/Transport2HttpHandler.cs:1414-1434 | 599, 5000, a failed task and a cancelled request end a response without another byte of its own; the connection is closed, at once or behind the fixed error answer |
| ResponseReuse.ReusedOrClosed | Nowin/Transport2HttpHandler.cs:1264-1276 | every response ends with the connection reused or closed, at once or behind the last packet |
| ResponseReuse.PlainReuse | Nowin/OwinHandler.cs:189-246 | the same in terms of what the application declares, how much it writes, whether anything goes out before the end and how its task ends |
| ResponseReuse.ChunkedResponse | Nowin/Transport2HttpHandler.cs:712-757 | HTTP/1.1, no declared length and one flush or overflow: no call fails; a finished response decodes to everything written and no prefix ends its body, one that is given up ends in a closed connection with a body that has not ended |
| ResponseReuse.ChunkedIsFinished | Nowin/Transport2HttpHandler.cs:1414-1434 | it is finished if the task completes uncancelled under another status than 599 and 5000, and, if nothing asks to close, only then |
| ResponseReuse.TerminatedOnce | Nowin/Transport2HttpHandler.cs:736-743 | the zero chunk ends the body with its last byte, nothing ends it earlier |
| ResponseClient.FailedFlushThenReuse | Nowin/Transport2HttpHandler.cs:830-850 | a concrete run in which a swallowed flush error leaves a Content-Length of 3 over an empty body |
| ResponseClient.RefusedFlushThenLength | Nowin/Transport2HttpHandler.cs:604-621 | a concrete run in which a chunk goes out behind a Content-Length of 3 and the connection is reused |
| ResponseClient.StatusAborts | Nowin/Transport2HttpHandler.cs:1416-1422 | status 599 closes the connection with nothing on the wire, and behind a flush without the zero chunk |
| ResponseClient.FlushedNoContent | Nowin/Transport2HttpHandler.cs:604-621 | a flush under status 204 leaves the zero chunk on a reused connection |
| ResponseHead.HeadIsFramed | Nowin/Transport2HttpHandler.cs:712-757 | over every run and ending: a reused connection carries the header block of a response to HEAD, followed by the zero chunk if a flush has sent it with chunked coding on, otherwise by nothing |
| ResponseHead.HeadReusedExactly | Nowin/Transport2HttpHandler.cs:1414-1450 | exactly when the connection is reused behind it |
| ResponseHead.HeadClientReads | Nowin/Transport2HttpHandler.cs:576-664 | the client reads the header block the application asked for, and behind it the zero chunk or nothing |
| ResponseHead.FlushedHead | Nowin/Transport2HttpHandler.cs:736-743 | a flushed response to HEAD leaves the zero chunk on a reused connection |
| ResponseChannel.ResponseChannel.HeaderAppend | Nowin/Transport2HttpHandler.cs:689-702 | appends to the header region or, once it does not fit, gives up for good while the position goes on counting |
| ResponseChannel.ResponseChannel.HeaderAppendHttpStatus | Nowin/Transport2HttpHandler.cs:666-674 | three digits, which fit although nothing checks it |
| ResponseChannel.ResponseChannel.FillResponse | Nowin/Transport2HttpHandler.cs:576-664 | the header region holds the whole header block, which `ResponseWire.HeaderBlockIsRead` reads back, if it fits, and overflow is detected exactly when it does not |
| ResponseChannel.ResponseChannel.WriteAsync | Nowin/Transport2HttpHandler.cs:830-885 | the new response is that of the specification; only header and body regions with their spare bytes change |
| ResponseChannel.ResponseChannel.FlushAsync | Nowin/ReqRespStream.cs:194-199 | hands the buffered block over and empties the buffer |
| ResponseChannel.ResponseChannel.WriteAll | Nowin/ReqRespStream.cs:206-228 | copies what fits, otherwise overflows, as specified |
| ResponseChannel.ResponseChannel.WriteOverflow | Nowin/ReqRespStream.cs:230-252 | the flush-and-copy loop does what its recursive specification says |
| ResponseChannel.ResponseChannel.SendHttpResponseAndPrepareForNext | Nowin/Transport2HttpHandler.cs:712-757 | finishes the response as specified, inside the writable regions |
| ResponseChannel.ResponseChannel.ResponseFinished | Nowin/Transport2HttpHandler.cs:1414-1450 | closes, answers with the fixed error or finishes, as specified |
| ResponseChannel.ResponseChannel.SetStatusCodeForFails | Nowin/OwinHandler.cs:238-246 | the status that a failed task leaves |
| RequestEnd.ScanSound | Nowin/Transport2HttpHandler.cs:801-820 | an end that is found is an end: CR LF CR LF stands before it |
| RequestEnd.ScanStable | Nowin/Transport2HttpHandler.cs:801-820 | further bytes do not move an end that was found, and an end that was not found lies behind them |
| RequestEnd.ScanFindsFirstIffEvenRun | Nowin/Transport2HttpHandler.cs:801-820 | the first CR LF CR LF is found if and only if an even run of CRs precedes it |
| RequestEnd.HiddenBlankLine | Nowin/Transport2HttpHandler.cs:806-816 | one CR in front hides the end of the head |
| RequestEnd.FindRequestEnd | Nowin/Transport2HttpHandler.cs:801-820 | the loop over the buffer finds what the automaton finds |
| BodyReader.TakeSplit | Nowin/ReqRespStream.cs:85-148 | an unserved step goes on over the next bytes as if all had come at once |
| BodyReader.ServeIsOneStep | Nowin/ReqRespStream.cs:150-159 | however the stream is cut, a read is one step over the whole of it |
| BodyReader.ReadIsExact | Nowin/ReqRespStream.cs:46-159 | a read returns exactly min(count, bytes left), the next bytes of the body, and never touches what follows |
| BodyReader.ReadsConcatenate | Nowin/ReqRespStream.cs:46-159 | reads of any sizes concatenate to the decoded body |
| BodyReader.DrainLeavesNextRequest | Nowin/Transport2HttpHandler.cs:770-777 | draining terminates and the cursor ends on the first byte behind what the server reads of the body |
| BodyReader.ChunkedBodyIsHeld | Nowin/ReqRespStream.cs:46-148 | a well-formed chunked body under a limit: it is read to its end if and only if the limit exceeds its payload, otherwise the reads get as many first bytes and the rest stays in the stream |
| BodyReader.TakeWholeBody | Nowin/ReqRespStream.cs:104-148 | the same for any state of the decoder and any body that ends |
| Input.FoldTake | Nowin/ReqRespStream.cs:85-148 | consuming a block at once is the same as feeding the reference byte by byte |
| Input.FoldHead | Nowin/Transport2HttpHandler.cs:1076-1098 | a head complete in the buffer is the one the reference completes; without one the reference is too long exactly at `size` bytes |
| Input.HeadsGrow | Nowin/Transport2HttpHandler.cs:1072-1230 | later bytes never change heads or delivered bytes of the past |
| Receiver.Receiver.NormalizeReceiveBuffer | Nowin/Transport2HttpHandler.cs:704-710 | moves the unread bytes to the front, inside the receive region |
| Receiver.Receiver.ProcessChunkedDataInternal | Nowin/ReqRespStream.cs:104-148 | delivers to the caller's buffer and advances every counter as the specification says |
| Receiver.Receiver.ProcessSizedDataInternal | Nowin/ReqRespStream.cs:85-102 | the same for a body with Content-Length |
| Receiver.Receiver.ReadAsync | Nowin/ReqRespStream.cs:46-83 | completes at once exactly if the buffer serves it; otherwise it waits, with a receive going on if and only if the client has not closed |
| Receiver.Receiver.TakeHead | Nowin/Transport2HttpHandler.cs:1090-1136 | the head leaves the buffer and is the next head of the reference, with the chunked flag and content length the parser leaves, or with its refusal |
| Receiver.Receiver.NoHeadYet | Nowin/Transport2HttpHandler.cs:1079-1088 | rejected exactly if the region is full without an end |
| Receiver.Receiver.ContinueRead | Nowin/ReqRespStream.cs:150-159 | a waiting read stores more bytes of its body; it is over when it has its count or the body ends |
| Receiver.Receiver.ProcessReceive | Nowin/Transport2HttpHandler.cs:1072-1230 | the loop terminates, keeps the refinement, starts at most one receive, leaves a read waiting or complete, and whatever waits for bytes has a receive going on until the client closes |
| Receiver.Receiver.RealStartNextReceive | Nowin/Transport2HttpHandler.cs:1064-1069 | whenever it runs, it asks for the bytes from where the receive was decided to the end of the region, at least one |
| Receiver.Receiver.FinishReceive | Nowin/Transport2HttpHandler.cs:1039-1061 | a receive of any length at the offset it was started with: both asserts on offsets hold, the invariant is kept, a read that ends has its count or the rest of the body |
| Receiver.Receiver.FinishReceiveClosed | Nowin/Transport2HttpHandler.cs:1006-1038 | a closed client leaves everything received as it is, stops receiving and cancels exactly a waiting read |
| Receiver.Receiver.ResponseDone | Nowin/Transport2HttpHandler.cs:1232-1277 | the next request starts on the byte behind the last body |
| Receiver.HeadsAreTheReference | Nowin/Transport2HttpHandler.cs:1003-1069 | for every cut into receives the heads are those of the reference, whatever the parser makes of them; the 400 answer was given exactly when the reference finds no end in `size` bytes, the connection given up for a head exactly when the parser refuses it |
| Receiver.ReadsAreTheReference | Nowin/ReqRespStream.cs:46-159 | a read over any number of receives has stored the next bytes of its body in the reference and, when it is over, min(count, bytes left), whatever arrives later |
| Receiver.ReadBehindTheEnd | Nowin/Transport2HttpHandler.cs:930-942 | a read with an empty buffer behind the end of the client waits without a receive |
| Input.SettledStay | Nowin/Transport2HttpHandler.cs:1072-1230 | a body that is over never changes again |
| Connection.ParserComposes | Nowin/Transport2HttpHandler.cs:1090-1099 | the head cut out by the receiver means what the parser finds in the buffer: chunked, content length and the rest, or refused |
| Connection.NextRequestIsBehind | Nowin/Transport2HttpHandler.cs:1072-1138 | whatever a head promises, the next request is awaited right behind what the server reads of the body |
| Connection.ChunkedRequestIsRead | Nowin/Transport2HttpHandler.cs:201-216 | behind a chunked body the next request is found if and only if no Content-Length follows the last chunked field, or the last one that does exceeds the decoded length |
| Connection.SizedRequestIsRead | Nowin/ReqRespStream.cs:85-102 | without chunked coding the body is the next bytes as they are, as many as the last Content-Length says, and the next request begins behind them |
| Connection.BothHeadersMean | Nowin/Transport2HttpHandler.cs:201-216 | a head with Transfer-Encoding: chunked and then Content-Length: 1 leaves both set |
| Connection.ClippedBody | Nowin/ReqRespStream.cs:60-69 | behind it one byte of the body is read and the other bytes are handed to the parser as a head |
| Connection.ClippedConnection | Nowin/Transport2HttpHandler.cs:1072-1138 | the whole run: this head, a body of one chunk of three bytes, and the next head is what is left of the body |
| ParsePath.FeedUtf8 | Nowin/Transport2HttpHandler.cs:404-443 | the bytes of every scalar value from 0x80 on become its UTF-16 |
| ParsePath.PathDecodes | Nowin/Transport2HttpHandler.cs:362-450 | any mix of raw and escaped characters becomes the UTF-16 meant, escaped ASCII stays escaped |
| ParsePath.WhatBeginsASequence | Nowin/Transport2HttpHandler.cs:404-423 | 0xC2 to 0xF4 begin a sequence of two, three or four bytes, every other byte stands for itself |
| ParsePath.CopiedAsItIs | Nowin/Transport2HttpHandler.cs:369-399 | what is neither an escaped nor a raw byte from 0x80 on is copied, broken escapes included |
| ParsePath.UnfinishedSequence | Nowin/Transport2HttpHandler.cs:445-448 | a sequence cut off by the end of the path becomes a question mark |
| ParsePath.Path | Nowin/Transport2HttpHandler.cs:362-450 | never more than end - start + 1 units, for every input |
| ParsePath.ParsePath | Nowin/Transport2HttpHandler.cs:362-450 | the loop writes exactly the specified units, within that bound |
| ParsePath.FeedChar | Nowin/Transport2HttpHandler.cs:404-443 | one byte of UTF-8 in the accumulator |
| RequestHead.First | Nowin/Transport2HttpHandler.cs:238-257 | every scanning loop stops at the first byte it looks for, at the latest at the final line end |
| RequestHead.FoundHeadEnds | Nowin/Transport2HttpHandler.cs:801-820 | where FindRequestEnd stops, the parser's precondition holds |
| RequestHead.RenderedEndIsFound | Nowin/Transport2HttpHandler.cs:801-820 | FindRequestEnd consumes exactly the rendered length |
| RequestHead.FieldsParse | Nowin/Transport2HttpHandler.cs:142-169 | header lines, folded ones included, are read back as names and values in order |
| RequestHead.TargetParses | Nowin/Transport2HttpHandler.cs:306-355 | a rendered target, with or without query, or `*`, is read back |
| RequestHead.LineIsRefused | Nowin/Transport2HttpHandler.cs:142-169 | a header line is refused exactly if it is not folded and no colon stands in front of the first blank or control byte |
| RequestHead.FirstLineIsRefused | Nowin/Transport2HttpHandler.cs:264-355 | a target exactly if it is neither a path nor the asterisk, a version exactly if it is not HTTP/1.x in front of the line end |
| RequestHead.HeadRoundTrip | Nowin/Transport2HttpHandler.cs:115-236 | print and parse: method, target, version, fields and what the server takes from them come back, anywhere in a buffer; refused exactly for an unreadable Content-Length |
| RequestParser.RequestParser.ParseHttpMethod | Nowin/Transport2HttpHandler.cs:480-563 | the comparisons with known methods and the scan find the same token |
| RequestParser.RequestParser.ParseHttpPath | Nowin/Transport2HttpHandler.cs:306-355 | path and query as specified, failure exactly where the source throws |
| RequestParser.RequestParser.ParseHttpProtocol | Nowin/Transport2HttpHandler.cs:264-304 | accepts exactly HTTP/1.x in front of CR LF |
| RequestParser.RequestParser.ParseHttpHeaders | Nowin/Transport2HttpHandler.cs:142-169 | the loop terminates, reads only before the end, adds the specified fields and takes their meaning; failure exactly where the source returns false or throws |
| RequestParser.RequestParser.ProcessRequestHeader | Nowin/Transport2HttpHandler.cs:171-236 | keep-alive, 100-continue, Content-Length, chunking and the WebSocket conditions follow the field, or it throws, as specified |
| RequestHeaders.MentionsText | Nowin/Transport2HttpHandler.cs:189-192 | a value mentions a word exactly if it is that word, but for case, with something around it or nothing |
| RequestHeaders.WhatFieldsSay | Nowin/Transport2HttpHandler.cs:171-236 | over any list of fields: refused exactly for an unreadable Content-Length; chunked, 100-continue and keep-alive exactly if some field says so |
| RequestHeaders.WhatFieldsLimit | Nowin/Transport2HttpHandler.cs:201-216 | the content length is what the last limiting field says: a Content-Length its number, chunked coding no limit |
| RequestHeaders.NoFieldLimits | Nowin/Transport2HttpHandler.cs:134-137 | without such a field it is 0 and the body not chunked |
| RequestHeaders.WhatFieldsAsk | Nowin/Transport2HttpHandler.cs:171-236 | each condition of a WebSocket request holds exactly if some field says so |
| RequestParser.RequestParser.StringFromLatin1 | Nowin/Transport2HttpHandler.cs:565-574 | the text fits the shared char buffer |
| RequestParser.RequestParser.ParseRequest | Nowin/Transport2HttpHandler.cs:115-140 | fields, their meaning and the header dictionary are those of the parsed head, failure exactly where the source throws |
| RequestParser.RequestParser.AddRequestHeader | Nowin/OwinHandler.cs:174-187 | appends the value under the name compared without case |
| RequestHeaders.CanonicalIsCaseless | Nowin/OwinHandler.cs:112 | two names are the same key exactly if they differ in nothing but the case of letters |
| RequestHeaders.SameIsCaseless | Nowin/Transport2HttpHandler.cs:171-236 | the comparisons with the server's own names and values, likewise |
| RequestHeaders.RespelledMeansTheSame | Nowin/Transport2HttpHandler.cs:171-236 | fields with their names in any case mean the same and give the same dictionary |
| RequestHead.RespelledRequest | Nowin/Transport2HttpHandler.cs:115-236 | so does a rendered request, parsed from the buffer |
| RequestHeaders.HeadersInArrivalOrder | Nowin/OwinHandler.cs:174-187 | a header is present exactly if it arrived, with all its values in order of arrival |
| Slot.StepKeeps | Nowin/Transport2HttpHandler.cs:963-1069 | no step of any thread throws, and the accept duty stays in exactly one place |
| Slot.SlotIsSafe | Nowin/SaeaLayerCallback.cs:112-351 | in every interleaving: one duty, no receive or disconnect under an accept, no operation on a missing socket, and no step can throw |
| Slot.AcceptsAreConserved | Nowin/SaeaLayerCallback.cs:191-211 | accepts started and accepts owed add up to disconnects and rejections plus what was owed; reports match disconnects |
| Slot.NoReceiveWhileAborting | Nowin/SaeaLayerCallback.cs:249-282 | between StartDisconnect and the next StartAccept no receive is started and no client reported |
| Slot.ThreadsAreConserved | Nowin/Transport2HttpHandler.cs:1052-1061 | every thread that comes from FinishReceive tests for a postponed accept, once |
| Slot.NextReceiveStarts | Nowin/Transport2HttpHandler.cs:930-942 | StartNextReceive and StartReceive leave a receive outstanding if and only if one is due |
| Slot.FinishedReceiveGoesOn | Nowin/Transport2HttpHandler.cs:1041-1069 | so does the thread of a receive that has succeeded, unless an accept waits for it |
| Slot.ReturnedThreadGoesOn | Nowin/Transport2HttpHandler.cs:1108-1121 | and a thread back from the application |
| Slot.DueReceiveStarts | Nowin/Transport2HttpHandler.cs:1264-1272 | in every run, on a connection in use that is neither receiving nor closing |
| Slot.NewClientIsLeftAlone | Nowin/Transport2HttpHandler.cs:978-997 | a new client is received from first; nothing closes it or starts another receive before |
| Slot.FailedReceiveEnds | Nowin/Transport2HttpHandler.cs:1006-1038 | behind a failed receive nothing is received and no request handed over |
| Slot.RefusedReceiveEnds | Nowin/SaeaLayerCallback.cs:259-263 | nor behind one that is refused while the connection is being closed |
| Slot.DoomedExactlyAfterMisstep | Nowin/Transport2HttpHandler.cs:1042-1061 | the accept duty gets stuck by two steps and no others |
| Slot.DoomedForever | Nowin/Transport2HttpHandler.cs:963-977 | once stuck no continuation accepts again |
| Slot.RearmedIffNotDoomed | Nowin/Transport2HttpHandler.cs:950-977 | some continuation accepts the next client if and only if the slot is not stuck |
| Slot.AcceptCanBeLost | Nowin/Transport2HttpHandler.cs:1041-1057 | a concrete run from the creation of the slot, with a request that is answered and closed, in which the accept is lost |
| Slot.Connection.RealPrepareAccept | Nowin/Transport2HttpHandler.cs:963-977 | postpones itself exactly while a receive is going on |
| Slot.Connection.StartAccept | Nowin/SaeaLayerCallback.cs:213-242 | never throws; sets Receive and clears Aborting |
| Slot.Connection.ProcessAccept | Nowin/SaeaLayerCallback.cs:112-148 | reports the client or calls PrepareAccept |
| Slot.Connection.FinishReceive | Nowin/Transport2HttpHandler.cs:1003-1051 | its lock block as a step |
| Slot.Connection.BackFromHandleRequest | Nowin/Transport2HttpHandler.cs:1108-1121 | a thread back from the application, on the same connection, decides like FinishReceive |
| Slot.Connection.BackFromOldConnection | Nowin/Transport2HttpHandler.cs:1117-1121 | a thread of an old connection stops, but still tests for the postponed accept |
| Slot.Connection.StartNextReceive | Nowin/Transport2HttpHandler.cs:930-942 | starts a receive at most if none is going on; whether one is due is a parameter |
| Slot.Connection.ContinueWith | Nowin/Transport2HttpHandler.cs:1052-1061 | its test and clear as a step |
| Slot.Connection.StartReceive | Nowin/SaeaLayerCallback.cs:249-282 | never throws and finds its socket; fails fast while aborting |
| Slot.Connection.ProcessReceive | Nowin/SaeaLayerCallback.cs:150-173 | hands a delayed accept on |
| Slot.Connection.CloseConnection | Nowin/Transport2HttpHandler.cs:1453-1457 | only the first call of a lifetime disconnects |
| Slot.Connection.StartDisconnect | Nowin/SaeaLayerCallback.cs:319-351 | never throws and finds its socket |
| Slot.Connection.ProcessDisconnect | Nowin/SaeaLayerCallback.cs:191-211 | delays the accept exactly if a receive is outstanding |
| Server.ConnectedIsCounted | Nowin/Server.cs:30-50 | for any number of slots and any interleaving ConnectedCount is the number of open slots and never exceeds AllocatedConnections, which never shrinks |
| Server.GrowthIsScheduled | Nowin/Server.cs:30-45 | in every run each report for which the strategy wants more connections schedules one growth task, and nothing else does |
| Server.GrowthHappens | Nowin/Server.cs:37-43 | a scheduled task can run and adds what the strategy wants by then |
| Server.StartIsCounted | Nowin/Server.cs:81-83 | the first block establishes it |
| Server.Server.ReportNewConnectedClient | Nowin/Server.cs:30-45 | counts and schedules growth as the step says |
| Server.Server.ReportDisconnectedClient | Nowin/Server.cs:47-50 | uncounts the client of the slot that disconnected |
| Server.Server.AllocateMore | Nowin/Server.cs:37-43 | asks the strategy again under the lock before it grows |
| Server.Server.CreateConnection | Nowin/ConnectionBlock.cs:15-21 | a counted connection comes to life with the duty to accept |
| Server.SliceBlock | Nowin/ConnectionBlock.cs:7-22 | slices of one block are disjoint and lie before the constants; refused exactly on overflow |
| WebSocketHeader.XorIsBitwise | Nowin/OwinHandler.cs:602-616 | every bit that is stored is the sum modulo 2 of the bits of payload and key |
| WebSocketHeader.MaskedIsStandard | Nowin/OwinHandler.cs:602-616 | unmasking undoes what section 5.3 of RFC 6455 makes of a payload, bit by bit |
| WebSocketHeader.MaskedTwice | Nowin/OwinHandler.cs:602-616 | unmasking undoes itself |
| WebSocketHeader.MaskedRolls | Nowin/OwinHandler.cs:602-616 | unmasking in pieces with a rolling index is unmasking at once |
| WebSocketHeader.Length64IsExactBelow2To31 | Nowin/OwinHandler.cs:636-649 | a 64-bit length is read correctly if and only if it is below 2^31 |
| WebSocketHeader.WhatIsRefused | Nowin/OwinHandler.cs:618-667 | refused exactly for a reserved bit, a reserved opcode or a missing mask; FIN and opcode are the bits of the standard |
| WebSocketHeader.HeaderRoundTrip | Nowin/OwinHandler.cs:618-662 | every client header is read back; 6, 8 or 14 bytes by its length form, the length right as above |
| WebSocketHeader.HeaderPrefix | Nowin/OwinHandler.cs:618-654 | incomplete on every non-empty proper prefix, independent of what follows |
| WebSocketSend.FramesDecode | Nowin/OwinHandler.cs:397-413 | what is sent is read back frame by frame by the standard's layout, lengths in minimal form |
| WebSocketSend.SendConserves | Nowin/OwinHandler.cs:368-421 | payloads and buffer are the old buffer and the data; a cancelled call has sent a beginning |
| WebSocketSend.SendShape | Nowin/OwinHandler.cs:383-414 | opcode on the first frame of a call, FIN exactly on the last of a final call, full frames before it |
| WebSocketSend.MessagesAreConserved | Nowin/OwinHandler.cs:368-421 | over any calls the payloads sent, continued by the buffer, are all data in order |
| WebSocketSend.SingleCallMessage | Nowin/OwinHandler.cs:368-421 | a message given in one call is well fragmented, whatever its size |
| WebSocketSend.MessageWellFormedIffPartsFit | Nowin/OwinHandler.cs:368-421 | a message given in several calls is well fragmented if and only if its non-final calls fit the buffer |
| WebSocketSend.WebSocketSender.SendAsync | Nowin/OwinHandler.cs:368-421 | the loop terminates and sends exactly the specified frames, inside the send region; the flag for the start of a message stays set |
| WebSocketReceive.FramesArrive | Nowin/OwinHandler.cs:489-583 | rendered data frames below 2^31 bytes arrive unmasked, in order, with their flags |
| WebSocketReceive.FoldHeader | Nowin/OwinHandler.cs:497-510 | taking a complete header at once is the same as feeding it byte by byte |
| WebSocketReceive.FoldBody | Nowin/OwinHandler.cs:551-556 | taking payload in pieces is the same as feeding it byte by byte |
| WebSocketReceive.WebSocketReceiver.Unmask | Nowin/OwinHandler.cs:602-616 | stores the unmasked bytes and rolls the mask index |
| WebSocketReceive.WebSocketReceiver.Parse | Nowin/OwinHandler.cs:489-594 | keeps the refinement; a receive that stays pending has a receive started if and only if the buffer does not end inside a header |
| WebSocketReceive.WebSocketReceiver.constructor | Nowin/OwinHandler.cs:311-330 | starts behind the upgrade with the bytes that are already in the buffer |
| WebSocketReceive.WebSocketReceiver.ReceiveAsync | Nowin/OwinHandler.cs:423-437 | the same for a new buffer of the application; cancelled exactly behind a close frame or a failed receive; with an empty buffer it waits and a receive is started |
| WebSocketReceive.WebSocketReceiver.FinishReceiveData | Nowin/OwinHandler.cs:355-366 | the same for data of any cut; a failed receive cancels the waiting one; a wait for a header hangs if and only if the data end inside it |
| WebSocketReceive.ErrorIsBroken | Nowin/OwinHandler.cs:497-504 | the receiver that has refused a header stands where the reference is broken, with every frame before it |
| WebSocketReceive.HeaderCutByReceive | Nowin/OwinHandler.cs:497-512 | a concrete run from the upgrade on: after a receive of one byte the application waits for ever |
| WebSocketReceive.ReceivedFramesAreReported | Nowin/OwinHandler.cs:489-594 | bytes stored are a prefix of the unmasked payloads, counts add up per frame, endOfMessage exactly with the last piece of a FIN frame |
| Environment.NamesDiffer | Nowin/OwinEnvironment.Generated.cs:655-780 | the 24 built-in keys are distinct |
| Environment.FindKey | Nowin/OwinEnvironment.Generated.cs:655-780 | the generated switch on the length finds every built-in key and nothing else |
| Environment.GetFixes | Nowin/OwinEnvironment.Generated.cs:76-93 | reading answers what the map holds and fixes a lazy value for good |
| Environment.EnumerationFixes | Nowin/OwinEnvironment.Generated.cs:1456-1554 | enumerating fixes every value it shows |
| Environment.DoRefines | Nowin/OwinEnvironment.cs:120-205 | every operation answers and changes like a plain map |
| Environment.DoRefinesLazily | Nowin/OwinEnvironment.cs:120-205 | the same against a map with lazy entries, each read through the defaults of the moment |
| Environment.EveryRunIsALazyMap | Nowin/OwinEnvironment.cs:120-205 | every run, the defaults changing before every operation, answers like a plain map whose 24 lazy entries take their value at the first read |
| Environment.InitialStands | Nowin/OwinEnvironment.Generated.cs:46-74 | a reset environment stands for the map of 24 lazy entries |
| Environment.AddReplacesBuiltIn | Nowin/OwinEnvironment.cs:169-175 | adding a present built-in key replaces its value and reports success |
| Environment.InitialLookup | Nowin/OwinEnvironment.Generated.cs:46-74 | a reset environment holds exactly the 24 defaults |
| Environment.KeysAre | Nowin/OwinEnvironment.cs:160-167 | built-in and extra keys are disjoint and their numbers add up to the count |
| Environment.OwinEnvironment.TryGetValue | Nowin/OwinEnvironment.cs:182-185 | as specified, in place |
| Environment.OwinEnvironment.ContainsKey | Nowin/OwinEnvironment.cs:164-167 | true exactly for the keys of the map |
| Environment.OwinEnvironment.SetItem | Nowin/OwinEnvironment.cs:194-200 | sets the value; the extra dictionary is created on first use and never holds a built-in key |
| Environment.ForwardedKeys | Nowin/OwinEnvironment.Generated.cs:327-390 | a value that is set reaches the server exactly under the keys of status code, reason phrase and response headers |
| Environment.OwinEnvironment.PropertiesTrySetValue | Nowin/OwinEnvironment.Generated.cs:920-1080 | sets value and flags, forwards status, reason and headers, refuses other keys |
| Environment.OwinEnvironment.Add | Nowin/OwinEnvironment.cs:169-175 | refused exactly for an extra key that is present |
| Environment.OwinEnvironment.Remove | Nowin/OwinEnvironment.cs:177-180 | as specified, in place |
| Environment.OwinEnvironment.Clear | Nowin/OwinEnvironment.cs:135-142 | removing while enumerating removes everything |
| Environment.OwinEnvironment.Count | Nowin/OwinEnvironment.cs:160-160 | the number of entries of the map |
| Environment.OwinEnvironment.Enumerate | Nowin/OwinEnvironment.cs:120-123 | each key once, with the value the map holds, as many pairs as entries |

## Left out

- Sockets, SSL (`SslTransportHandler`), certificates, timers, tracing, execution-context flow: foreign calls and plumbing.
- The WebSocket upgrade, the close handshake and 100-continue: they depend on library calls.
- WebSocketReceive.WebSocketReceiver.Parse: a close frame ends the model of the receiver at its header; that its payload is awaited and unmasked in place is not modelled.
- WebSocketReceive.WebSocketReceiver.FinishReceiveData: the answer to a waiting close handshake is not modelled.
- ResponseClient.ReuseIsFramed: is stated for less than 2^64 - 1 bytes, for texts without CR and LF, and for field names of ASCII characters without a colon; the same without the last two, in terms of what is decided, is `ResponseReuse.ReuseIsFramedAsDecided`.
- ResponseClient.ClientReads: is stated under the same conditions.
- ResponseReuse.ReusedExactly: is stated for the same responses, and for last packets whose send succeeds before the client closes; a drain of the request that fails is taken as a cancelled request, and the application's own call to disconnect is left out.
- Sends in the slot protocol, and callbacks of an old connection that come late: `_sendEvent` has its own bit; the flag `_clientClosedConnection` is not part of the slot either.
- The error return of an accept (`SaeaLayerCallback.cs:89-92`) and `ObjectDisposedException`: they belong to stopping the server.
- Slot.Connection.CloseConnection: is assumed to be requested only during the connection's own lifetime, behind a request, a failed receive or the 400 answer.
- Slot.Connection.StartNextReceive: what ProcessReceive decides from the buffer, and the return for a closed client, are one nondeterministic decision.
- Slot.Connection.ProcessReceive: the PrepareAccept call behind FinishReceive may also run before it; the model allows more orders than one thread would produce.
- Receiver.HeadsAreTheReference: is proved for connections of less than 2^63 bytes, for an application that reads only while its request is being processed, and with HandleRequest as an event behind the step.
- Receiver.ReadsAreTheReference: is stated for the last read that was started, one at a time, as the application awaits them.
- RequestParser.RequestParser.ProcessRequestHeader: `ulong.TryParse` is a parameter.
- Receiver.Receiver.ParseRequest: takes the parser as a function of the head; `Connection.ParserComposes` says that it is the one in `RequestParser.dfy`.
- Responses: `ulong.TryParse` on the declared length is part of the wish (`LengthHeader`); the OnSendingHeaders callbacks are header changes in front of the call that runs them, or part of the ending; an exception is an outcome.
- Environment.OwinEnvironment.PropertiesTrySetValue: the casts of the forwarded values, which may throw, are not modelled.
- `ConnectionAllocationStrategy`, `ServerBuilder` setters, `IpIsLocalChecker`, the other factories and interfaces, and everything outside the `Nowin` project: one-branch code, clients and third-party code.
