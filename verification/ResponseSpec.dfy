/**
 * A response as a value: what the application has declared and written, what is still buffered,
 * and every byte handed to StartSend. The functions follow FillResponse, WriteAsync, ResponseFinished
 * and SendHttpResponseAndPrepareForNext (Nowin/Transport2HttpHandler.cs:576-664, 712-757, 779-797,
 * 830-885, 1414-1450), the write side of ReqRespStream (Nowin/ReqRespStream.cs:194-252) and the end of
 * the application's task (Nowin/OwinHandler.cs:201-246).
 */
module ResponseSpec {
  import opened Bytes
  import opened ChunkEncoder

  /** The application's Connection header, as PrepareResponseHeaders classifies it. */
  datatype ConnectionHeader = NoConnection | Close | KeepAlive | OtherConnection | ManyConnections

  /** The application's Content-Length header: absent, not one number, or a number. */
  datatype LengthHeader = NoLength | BadLength | Declared(n: nat)

  /** What does not change while one response is produced. */
  datatype Config = Config(
    size: nat,                         // ReceiveBufferSize
    isHead: bool,
    isHttp10: bool,
    serverName: Option<string>
  )

  /**
   * What the next PrepareResponseHeaders will find: the application's status, reason and header
   * dictionary as they stand by then, callbacks of OnSendingHeaders included, and the date.
   */
  datatype Wish = Wish(
    statusCode: int,
    reason: Option<string>,
    connection: ConnectionHeader,
    lengthHeader: LengthHeader,
    fields: seq<(string, seq<string>)>, // all other headers, with their values
    date: string
  )

  /** What FillResponse has decided last; keepAlive, contentLength and chunked outlive the call. */
  datatype Header = Header(
    statusCode: int,
    reason: Option<string>,
    date: string,
    keepAlive: bool,
    contentLength: nat,                // ULONG_MAX: not declared
    chunked: bool,
    shown: seq<(string, seq<string>)>  // the fields PrepareResponseHeaders passed on
  )

  /** What has been handed to StartSend so far. */
  datatype Trace = Trace(
    wire: seq<Byte>,                   // every byte, in order
    blocks: seq<seq<Byte>>,            // the application's non-empty blocks
    lost: nat                          // bytes of flushes that failed
  )

  datatype Response = Response(
    config: Config,
    wish: Wish,
    header: Header,
    head: seq<Byte>,                   // the last header block produced by FillResponse
    headersSent: bool,
    local: seq<Byte>,                  // bytes in the body region
    position: nat,                     // ResponseLength
    lastPacket: bool,
    closed: bool,                      // CloseConnection has been requested
    trace: Trace
  )

  datatype Outcome = Sent | HeadersTooLong | TooManyBytes | WrongBuffer

  // ---------------------------------------------------------------------------------------
  // The header block
  // ---------------------------------------------------------------------------------------

  function Decimal(n: nat): string {
    if n < 10 then [('0' as int + n) as char] else Decimal(n / 10) + [('0' as int + n % 10) as char]
  }

  function StatusDigits(status: int): string
    requires 200 <= status <= 999
  {
    [('0' as int + status / 100) as char, ('0' as int + status / 10 % 10) as char, ('0' as int + status % 10) as char]
  }

  function LowerChar(ch: char): char {
    if 'A' <= ch <= 'Z' then (ch as int + 32) as char else ch
  }

  predicate SameIgnoringCase(a: string, b: string) {
    |a| == |b| && forall i :: 0 <= i < |a| ==> LowerChar(a[i]) == LowerChar(b[i])
  }

  /** CheckForHeaderOverwrite: does the application set this header itself? */
  predicate Overwritten(fields: seq<(string, seq<string>)>, name: string) {
    exists i :: 0 <= i < |fields| && SameIgnoringCase(fields[i].0, name)
  }

  function ValueLines(name: string, values: seq<string>): string {
    if values == [] then "" else ValueLines(name, values[..|values| - 1]) + name + ": " + values[|values| - 1] + "\r\n"
  }

  function FieldLines(fields: seq<(string, seq<string>)>): string {
    if fields == [] then ""
    else
      var last := fields[|fields| - 1];
      FieldLines(fields[..|fields| - 1]) + ValueLines(last.0, last.1)
  }

  function StatusLine(h: Header): string
    requires 200 <= h.statusCode <= 999
  {
    "HTTP/1.1 " + StatusDigits(h.statusCode) +
    (if h.reason.Some? then " " + h.reason.value else "") + "\r\n"
  }

  function FramingLines(config: Config, h: Header): string {
    if h.contentLength != ULONG_MAX then "Content-Length: " + Decimal(h.contentLength) + "\r\n"
    else if config.isHttp10 then ""
    else "Transfer-Encoding: chunked\r\n"
  }

  function ConnectionLines(config: Config, h: Header): string {
    if !h.keepAlive then "Connection: close\r\n"
    else if config.isHttp10 then "Connection: keep-alive\r\n"
    else ""
  }

  function ServerLines(config: Config, h: Header): string {
    (if config.serverName.Some? && !Overwritten(h.shown, "Server")
     then "Server: " + config.serverName.value + "\r\n" else "") +
    (if !Overwritten(h.shown, "Date") then "Date: " + h.date + "\r\n" else "")
  }

  function HeaderText(config: Config, h: Header): string
    requires 200 <= h.statusCode <= 999
  {
    StatusLine(h) + FramingLines(config, h) + ConnectionLines(config, h) + ServerLines(config, h) +
    FieldLines(h.shown) + "\r\n"
  }

  /** OwinHandler.PrepareResponseHeaders takes the Connection and Content-Length headers away. */
  function Consumed(w: Wish): Wish {
    if w.connection == ManyConnections then w.(connection := NoConnection, statusCode := 500)
    else w.(connection := NoConnection, lengthHeader := NoLength,
            statusCode := if w.lengthHeader == BadLength then 500 else w.statusCode)
  }

  /** Transfer-Encoding is the server's own business. */
  function Passed(fields: seq<(string, seq<string>)>): seq<(string, seq<string>)> {
    if fields == [] then []
    else
      var last := fields[|fields| - 1];
      Passed(fields[..|fields| - 1]) + if SameIgnoringCase(last.0, "Transfer-Encoding") then [] else [last]
  }

  /** It stops at a header it cannot take, before it passes any other header on. */
  function Prepare(w: Wish, h: Header): Header {
    if w.connection == ManyConnections then h.(shown := [])
    else
      var h1 := h.(keepAlive := if w.connection == Close then false
                                else if w.connection == KeepAlive then true else h.keepAlive);
      match w.lengthHeader
      case BadLength => h1.(shown := [])
      case NoLength => h1.(shown := Passed(w.fields))
      case Declared(n) => h1.(contentLength := n, shown := Passed(w.fields))
  }

  /** The decisions FillResponse takes before it writes the header block. */
  function Decide(config: Config, w: Wish, h: Header, position: nat, finished: bool): (d: Header)
    ensures 200 <= d.statusCode <= 999
  {
    var p := Prepare(w, h);
    var asked := Consumed(w).statusCode;
    var status := if asked < 200 || asked > 999 then 500 else asked;
    var replace := finished && !config.isHead;
    var mismatch := replace && p.contentLength != ULONG_MAX && p.contentLength != position;
    var shownStatus := if mismatch then 500 else status;
    var length := if replace then position else p.contentLength;
    p.(statusCode := shownStatus, reason := w.reason, date := w.date,
       contentLength := length,
       keepAlive := p.keepAlive && shownStatus != 500 && !(length == ULONG_MAX && config.isHttp10),
       chunked := p.chunked || (length == ULONG_MAX && !config.isHttp10))
  }

  function HeaderBlock(config: Config, h: Header): seq<Byte>
    requires 200 <= h.statusCode <= 999
  {
    Latin1(HeaderText(config, h))
  }

  // ---------------------------------------------------------------------------------------
  // Writing, flushing, finishing
  // ---------------------------------------------------------------------------------------

  function BodyBytes(chunked: bool, block: seq<Byte>): seq<Byte> {
    if chunked && block != [] then EncodeChunk(block) else block
  }

  function Emit(t: Trace, bytes: seq<Byte>, block: seq<Byte>): Trace {
    t.(wire := t.wire + bytes, blocks := if block == [] then t.blocks else t.blocks + [block])
  }

  /** WriteAsync once the headers are settled: `bytes` is what it would send for `block`. */
  function Push(r: Response, bytes: seq<Byte>, block: seq<Byte>): (q: (Response, Outcome))
    ensures q.0.config == r.config && q.0.local == r.local && q.0.position == r.position
  {
    if !r.config.isHead && r.header.contentLength != ULONG_MAX && r.position > r.header.contentLength then
      (r.(closed := true, trace := r.trace.(lost := r.trace.lost + |block|)), TooManyBytes)
    else (r.(trace := Emit(r.trace, bytes, block)), Sent)
  }

  /** WriteAsync while the headers are still unsent. */
  function SendFirst(r: Response, block: seq<Byte>): (q: (Response, Outcome))
    requires !r.headersSent
    ensures q.0.config == r.config && q.0.local == r.local && q.0.position == r.position
  {
    var h := Decide(r.config, r.wish, r.header, r.position, false);
    var head := HeaderBlock(r.config, h);
    var f := r.(wish := Consumed(r.wish), header := h, head := head);
    if |head| > r.config.size then
      (f.(trace := r.trace.(lost := r.trace.lost + |block|)), HeadersTooLong)
    else
      var b := if r.config.isHead then [] else block;
      Push(f.(headersSent := true), head + BodyBytes(h.chunked, b), b)
  }

  /** Transport2HttpHandler.WriteAsync; `own` tells whether the block lies in the connection buffer. */
  function Send(r: Response, block: seq<Byte>, own: bool): (q: (Response, Outcome))
    ensures q.0.config == r.config && q.0.local == r.local && q.0.position == r.position
  {
    if !own && (!r.headersSent || r.header.chunked) then (r, WrongBuffer)
    else if !r.headersSent then SendFirst(r, block)
    else if r.config.isHead || (r.header.chunked && block == []) then (r, Sent)
    else Push(r, BodyBytes(r.header.chunked, block), block)
  }

  function Flush(r: Response): (q: (Response, Outcome))
    ensures q.0.config == r.config && q.0.local == [] && q.0.position == r.position
  {
    Send(r.(local := []), r.local, true)
  }

  predicate CanUseDirectWrite(r: Response) {
    !r.header.chunked && r.headersSent
  }

  function Buffered(r: Response, data: seq<Byte>): Response {
    r.(local := r.local + data, position := r.position + |data|)
  }

  function Min(a: int, b: int): int { if a < b then a else b }

  /** The flush at the head of an iteration of WriteOverflowAsync. */
  function FlushIfFull(r: Response): (q: (Response, Outcome))
    requires r.config.size > 0 && |r.local| <= r.config.size
    ensures q.0.config == r.config && |q.0.local| < r.config.size && q.0.position == r.position
    ensures |r.local| == r.config.size ==> q.0.local == []
  {
    if |r.local| == r.config.size then Flush(r) else (r, Sent)
  }

  /** The loop of WriteOverflowAsync. */
  function Overflow(r: Response, data: seq<Byte>): (q: (Response, Outcome))
    requires r.config.size > 0 && |r.local| <= r.config.size && data != []
    ensures q.0.config == r.config && |q.0.local| <= r.config.size
    decreases |data|
  {
    var (r1, o) := FlushIfFull(r);
    if o != Sent then (r1, o)
    else if |r.local| == r.config.size && |data| >= r.config.size && CanUseDirectWrite(r1) then
      Send(r1.(position := r1.position + |data|), data, false)
    else
      var tillEnd := Min(r1.config.size - |r1.local|, |data|);
      var r2 := Buffered(r1, data[..tillEnd]);
      if tillEnd == |data| then (r2, Sent) else Overflow(r2, data[tillEnd..])
  }

  function Write(r: Response, data: seq<Byte>): (q: (Response, Outcome))
    requires r.config.size > 0 && |r.local| <= r.config.size
    ensures q.0.config == r.config && |q.0.local| <= r.config.size
  {
    if |data| <= r.config.size - |r.local| then (Buffered(r, data), Sent) else Overflow(r, data)
  }

  function ErrorText(config: Config, date: string): string {
    "HTTP/1.1 500 Internal Server Error\r\nServer: " +
    (if config.serverName.Some? then config.serverName.value else "") +
    "\r\nDate: " + date + "\r\nContent-Length: 0\r\n\r\n"
  }

  /** The bytes that follow the header block when the response is finished. */
  function LastBytes(chunked: bool, block: seq<Byte>): seq<Byte> {
    if chunked then BodyBytes(true, block) + ZERO_CHUNK else block
  }

  /** SendHttpResponseAndPrepareForNext while the headers are still unsent. */
  function FinishFirst(r: Response, block: seq<Byte>): Response {
    var h := Decide(r.config, r.wish, r.header, r.position, true);
    var head := HeaderBlock(r.config, h);
    var f := r.(wish := Consumed(r.wish), header := h, head := head, lastPacket := true);
    if |head| > r.config.size then
      f.(header := h.(keepAlive := false),
         trace := r.trace.(wire := r.trace.wire + Utf8Text(ErrorText(r.config, r.wish.date))))
    else f.(headersSent := true, trace := Emit(r.trace, head + block, block))
  }

  /** SendHttpResponseAndPrepareForNext. */
  function Finish(r: Response): Response {
    var block := if r.config.isHead then [] else r.local;
    if !r.headersSent then FinishFirst(r, block)
    else if r.header.contentLength != ULONG_MAX && r.position != r.header.contentLength then
      r.(closed := true)
    else r.(lastPacket := true, trace := Emit(r.trace, LastBytes(r.header.chunked, block), block))
  }

  // ---------------------------------------------------------------------------------------
  // The end of the application's task
  // ---------------------------------------------------------------------------------------

  datatype TaskEnd = Completes | Faults | IsCancelled

  /**
   * How a response comes to its end: the application's task, whether the request has been cancelled by
   * then, and what the OnSendingHeaders callbacks make of the wish if a last FillResponse runs them.
   */
  datatype Ending = Ending(task: TaskEnd, cancelled: bool, late: Option<Wish>)

  const ABORT := 599      // the connection is to be closed at once
  const UNCAUGHT := 5000  // the answer is a fixed one, or none

  /** SetReponseStatusCodeForFails */
  function StatusAtEnd(r: Response, task: TaskEnd): int {
    if task.Completes? then r.wish.statusCode
    else if task.Faults? && r.headersSent && r.wish.statusCode == 500 then 500
    else if r.headersSent then ABORT
    else UNCAUGHT
  }

  function AppDone(r: Response, task: TaskEnd): Response {
    if task.Completes? then r else r.(wish := r.wish.(statusCode := StatusAtEnd(r, task), reason := None))
  }

  /** SendInternalServerError */
  function InternalError(r: Response): Response {
    r.(header := r.header.(keepAlive := false), lastPacket := true,
       trace := r.trace.(wire := r.trace.wire + Utf8Text(ErrorText(r.config, r.wish.date))))
  }

  /** What a last FillResponse finds. */
  function Late(r: Response, late: Option<Wish>): Response {
    if late.Some? && !r.headersSent then r.(wish := late.value) else r
  }

  /** ResponseFinished, the request being read to its end. */
  function ResponseFinished(r: Response, cancelled: bool, late: Option<Wish>): Response {
    if r.wish.statusCode == ABORT then r.(header := r.header.(keepAlive := false), closed := true)
    else if r.wish.statusCode == UNCAUGHT || cancelled then
      if r.headersSent then r.(closed := true) else InternalError(r)
    else Finish(Late(r, late))
  }

  function Conclude(r: Response, e: Ending): Response {
    ResponseFinished(AppDone(r, e.task), e.cancelled, e.late)
  }

  /** FinishSend keeps the connection for the next request. */
  predicate Reused(r: Response) {
    r.lastPacket && r.header.keepAlive && !r.closed
  }
}
