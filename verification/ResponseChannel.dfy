/**
 * The response half of one connection, in place: Transport2HttpHandler's header and body
 * encoders and ReqRespStream's buffered writes over the connection's slice of the shared buffer.
 *
 *   start            +size            +2*size  +8            +3*size +8  +16
 *   | receive region | header region  | spare  | body region | spare     |
 */
module ResponseChannel {
  import opened Bytes
  import opened ChunkEncoder
  import opened ResponseSpec
  import opened ResponseTheorems

  lemma Latin1Append(a: string, b: string)
    ensures Latin1(a + b) == Latin1(a) + Latin1(b)
  {
  }

  /** The second half of an iteration of WriteOverflowAsync: there is room in the buffer. */
  function Filled(r: Response, data: seq<Byte>): (Response, Outcome)
    requires |r.local| < r.config.size && data != []
  {
    var tillEnd := ResponseSpec.Min(r.config.size - |r.local|, |data|);
    var r' := Buffered(r, data[..tillEnd]);
    if tillEnd == |data| then (r', Sent) else Overflow(r', data[tillEnd..])
  }

  /** One iteration of WriteOverflowAsync. */
  lemma OverflowTurn(r: Response, data: seq<Byte>)
    requires r.config.size > 0 && |r.local| <= r.config.size && data != []
    ensures |r.local| < r.config.size ==> Overflow(r, data) == Filled(r, data)
    ensures |r.local| == r.config.size ==>
              var (r', o) := Flush(r);
              Overflow(r, data) ==
              if o != Sent then (r', o)
              else if |data| >= r.config.size && CanUseDirectWrite(r')
              then Send(r'.(position := r'.position + |data|), data, false)
              else Filled(r', data)
  {
    hide Flush, Send, Buffered;
  }

  lemma PlainBytes(block: seq<Byte>)
    ensures BodyBytes(false, block) == block
  {
  }

  /** What the first block becomes. */
  lemma FirstSend(r: Response, block: seq<Byte>)
    requires !r.headersSent
    ensures var h := Decide(r.config, r.wish, r.header, r.position, false);
            var head := HeaderBlock(r.config, h);
            var f := r.(wish := Consumed(r.wish), header := h, head := head);
            var b := if r.config.isHead then [] else block;
            SendFirst(r, block) ==
            if |head| > r.config.size then (f.(trace := r.trace.(lost := r.trace.lost + |block|)), HeadersTooLong)
            else Push(f.(headersSent := true), head + BodyBytes(h.chunked, b), b)
  {
  }

  class ResponseChannel {
    const buffer: array<Byte>
    const start: nat
    const config: Config

    var wish: Wish              // status, reason, date and the application's header dictionary
    var header: Header
    var headerPos: nat
    var headersSent: bool
    var localPos: nat
    var position: nat
    var lastPacket: bool
    var closed: bool
    ghost var head: seq<Byte>
    ghost var trace: Trace

    ghost function HeaderOffset(): nat { start + config.size }

    ghost function BodyOffset(): nat { start + config.size * 2 + 8 }

    ghost function SliceEnd(): nat { start + config.size * 3 + 16 }

    ghost predicate Valid()
      reads this
    {
      ValidConfig(config) && SliceEnd() <= buffer.Length && localPos <= config.size
    }

    /** Header and body regions with their spare bytes: the only part a response may write. */
    ghost predicate Writable(i: int) {
      HeaderOffset() <= i < SliceEnd()
    }

    ghost predicate InHeader(i: int) {
      HeaderOffset() <= i < HeaderOffset() + config.size
    }

    ghost function Value(): Response
      requires Valid()
      reads this, buffer
    {
      Response(config, wish, header, head, headersSent, buffer[BodyOffset()..BodyOffset() + localPos], position,
               lastPacket, closed, trace)
    }

    /** The header region holds `text`, or has given up because it does not fit. */
    ghost predicate HeaderHolds(text: string)
      requires Valid()
      reads this, buffer
    {
      && headerPos == |text|
      && (|text| <= config.size ==> buffer[HeaderOffset()..HeaderOffset() + |text|] == Latin1(text))
    }

    constructor (buffer: array<Byte>, start: nat, config: Config, wish: Wish, header: Header)
      requires ValidConfig(config) && start + config.size * 3 + 16 <= buffer.Length
      requires !header.chunked && header.contentLength == ULONG_MAX
      ensures Valid() && Fresh(Value())
      ensures this.buffer == buffer && this.start == start && this.config == config
      ensures this.wish == wish && this.header == header
    {
      this.buffer, this.start, this.config, this.wish, this.header := buffer, start, config, wish, header;
      headerPos, localPos, position := 0, 0, 0;
      headersSent, lastPacket, closed := false, false, false;
      head, trace := [], Trace([], [], 0);
    }

    // -------------------------------------------------------------------------------------
    // Header appends
    // -------------------------------------------------------------------------------------

    method HeaderAppend(text: string, ghost sofar: string)
      requires Valid() && HeaderHolds(sofar)
      modifies this`headerPos, buffer
      ensures Valid() && HeaderHolds(sofar + text)
      ensures forall i :: 0 <= i < buffer.Length && !InHeader(i) ==> buffer[i] == old(buffer[i])
    {
      Latin1Append(sofar, text);
      if headerPos > config.size - |text| {
        headerPos := headerPos + |text|;
        return;
      }
      var j := start + config.size + headerPos;
      ghost var from := j;
      for k := 0 to |text|
        invariant j == from + k && headerPos == old(headerPos)
        invariant buffer[from..j] == Latin1(text)[..k]
        invariant forall i :: 0 <= i < buffer.Length && !(from <= i < j) ==> buffer[i] == old(buffer[i])
      {
        buffer[j] := text[k] as int % 256;
        j := j + 1;
      }
      headerPos := headerPos + |text|;
      assert Latin1(text)[..|text|] == Latin1(text);
      assert j == HeaderOffset() + |sofar + text|;
      assert old(buffer[HeaderOffset()..from]) == Latin1(sofar);
      assert buffer[HeaderOffset()..j] == buffer[HeaderOffset()..from] + buffer[from..j];
      assert buffer[HeaderOffset()..from] == old(buffer[HeaderOffset()..from]);
    }

    method HeaderAppendCrLf(ghost sofar: string)
      requires Valid() && HeaderHolds(sofar)
      modifies this`headerPos, buffer
      ensures Valid() && HeaderHolds(sofar + "\r\n")
      ensures forall i :: 0 <= i < buffer.Length && !InHeader(i) ==> buffer[i] == old(buffer[i])
    {
      Latin1Append(sofar, "\r\n");
      if headerPos > config.size - 2 {
        headerPos := headerPos + 2;
        return;
      }
      var i := start + config.size + headerPos;
      buffer[i] := CR;
      buffer[i + 1] := LF;
      headerPos := headerPos + 2;
      assert buffer[HeaderOffset()..i + 2] == buffer[HeaderOffset()..i] + CRLF;
      assert buffer[HeaderOffset()..i] == old(buffer[HeaderOffset()..i]);
      assert Latin1("\r\n") == CRLF;
    }

    /** "It always fits so skip buffer size check": true because it stands right behind "HTTP/1.1 ". */
    method HeaderAppendHttpStatus(status: int, ghost sofar: string)
      requires Valid() && HeaderHolds(sofar) && |sofar| == 9 && 200 <= status <= 999
      modifies this`headerPos, buffer
      ensures Valid() && HeaderHolds(sofar + StatusDigits(status))
      ensures forall i :: 0 <= i < buffer.Length && !InHeader(i) ==> buffer[i] == old(buffer[i])
    {
      Latin1Append(sofar, StatusDigits(status));
      var j := start + config.size + headerPos;
      WriteDigits(j, status);
      headerPos := headerPos + 3;
      Joined(buffer, HeaderOffset(), j, j + 3);
      assert buffer[HeaderOffset()..j] == old(buffer[HeaderOffset()..j]);
    }

    method WriteDigits(j: nat, status: int)
      requires j + 3 <= buffer.Length && 200 <= status <= 999
      modifies buffer
      ensures buffer[j..j + 3] == Latin1(StatusDigits(status))
      ensures forall i :: 0 <= i < buffer.Length && !(j <= i < j + 3) ==> buffer[i] == old(buffer[i])
    {
      buffer[j] := '0' as int + status / 100;
      buffer[j + 1] := '0' as int + status / 10 % 10;
      buffer[j + 2] := '0' as int + status % 10;
    }

    method NewHeader()
      requires Valid()
      modifies this`headerPos
      ensures Valid() && HeaderHolds("")
    {
      headerPos := 0;
    }

    method AppendStatusLine(status: int)
      requires Valid() && 200 <= status <= 999
      requires header.statusCode == status
      modifies this`headerPos, buffer
      ensures Valid() && HeaderHolds(StatusLine(header))
      ensures forall i :: 0 <= i < buffer.Length && !InHeader(i) ==> buffer[i] == old(buffer[i])
    {
      hide HeaderHolds, Latin1, StatusDigits;
      NewHeader();
      HeaderAppend("HTTP/1.1 ", "");
      ghost var text := "HTTP/1.1 ";
      assert "" + text == text;
      HeaderAppendHttpStatus(status, text);
      text := text + StatusDigits(status);
      if header.reason.Some? {
        HeaderAppend(" ", text);
        HeaderAppend(header.reason.value, text + " ");
        assert text + " " + header.reason.value == text + (" " + header.reason.value);
        text := text + (" " + header.reason.value);
      } else {
        assert text + "" == text;
        text := text + "";
      }
      HeaderAppendCrLf(text);
    }

    method AppendLine(prefix: string, value: string, ghost sofar: string)
      requires Valid() && HeaderHolds(sofar)
      modifies this`headerPos, buffer
      ensures Valid() && HeaderHolds(sofar + (prefix + value + "\r\n"))
      ensures forall i :: 0 <= i < buffer.Length && !InHeader(i) ==> buffer[i] == old(buffer[i])
    {
      HeaderAppend(prefix, sofar);
      HeaderAppend(value, sofar + prefix);
      HeaderAppendCrLf(sofar + prefix + value);
      assert sofar + prefix + value + "\r\n" == sofar + (prefix + value + "\r\n");
    }

    method CheckForHeaderOverwrite(name: string) returns (found: bool)
      ensures found <==> Overwritten(header.shown, name)
    {
      found := false;
      for i := 0 to |header.shown|
        invariant found <==> exists k :: 0 <= k < i && SameIgnoringCase(header.shown[k].0, name)
      {
        if SameIgnoringCase(header.shown[i].0, name) {
          found := true;
        }
      }
    }

    method AppendServerLines(ghost sofar: string)
      requires Valid() && HeaderHolds(sofar)
      modifies this`headerPos, buffer
      ensures Valid() && HeaderHolds(sofar + ServerLines(config, header))
      ensures forall i :: 0 <= i < buffer.Length && !InHeader(i) ==> buffer[i] == old(buffer[i])
    {
      var serverNameOverwrite := CheckForHeaderOverwrite("Server");
      var dateOverwrite := CheckForHeaderOverwrite("Date");
      ghost var server := if config.serverName.Some? && !serverNameOverwrite
                          then "Server: " + config.serverName.value + "\r\n" else "";
      if config.serverName.Some? && !serverNameOverwrite {
        AppendLine("Server: ", config.serverName.value, sofar);
      } else {
        assert sofar + server == sofar;
      }
      ghost var date := if !dateOverwrite then "Date: " + header.date + "\r\n" else "";
      if !dateOverwrite {
        AppendLine("Date: ", header.date, sofar + server);
      } else {
        assert sofar + server + date == sofar + server;
      }
      assert sofar + server + date == sofar + (server + date);
    }

    method AppendField(name: string, values: seq<string>, ghost sofar: string)
      requires Valid() && HeaderHolds(sofar)
      modifies this`headerPos, buffer
      ensures Valid() && HeaderHolds(sofar + ValueLines(name, values))
      ensures forall i :: 0 <= i < buffer.Length && !InHeader(i) ==> buffer[i] == old(buffer[i])
    {
      assert sofar + ValueLines(name, []) == sofar;
      assert values[..0] == [];
      for i := 0 to |values|
        invariant Valid() && HeaderHolds(sofar + ValueLines(name, values[..i]))
        invariant forall i :: 0 <= i < buffer.Length && !InHeader(i) ==> buffer[i] == old(buffer[i])
      {
        ghost var text := sofar + ValueLines(name, values[..i]);
        HeaderAppend(name, text);
        HeaderAppend(": ", text + name);
        HeaderAppend(values[i], text + name + ": ");
        HeaderAppendCrLf(text + name + ": " + values[i]);
        ghost var next := values[..i + 1];
        assert next[..|next| - 1] == values[..i];
        assert text + name + ": " + values[i] + "\r\n" == sofar + ValueLines(name, next);
      }
      assert values[..|values|] == values;
    }

    method AppendFields(ghost sofar: string)
      requires Valid() && HeaderHolds(sofar)
      modifies this`headerPos, buffer
      ensures Valid() && HeaderHolds(sofar + FieldLines(header.shown))
      ensures forall i :: 0 <= i < buffer.Length && !InHeader(i) ==> buffer[i] == old(buffer[i])
    {
      var fields := header.shown;
      assert sofar + FieldLines([]) == sofar;
      assert fields[..0] == [];
      for k := 0 to |fields|
        invariant Valid() && HeaderHolds(sofar + FieldLines(fields[..k]))
        invariant forall i :: 0 <= i < buffer.Length && !InHeader(i) ==> buffer[i] == old(buffer[i])
      {
        AppendField(fields[k].0, fields[k].1, sofar + FieldLines(fields[..k]));
        ghost var next := fields[..k + 1];
        assert next[..|next| - 1] == fields[..k];
        assert sofar + FieldLines(fields[..k]) + ValueLines(fields[k].0, fields[k].1) == sofar + FieldLines(next);
      }
      assert fields[..|fields|] == fields;
    }

    // -------------------------------------------------------------------------------------
    // FillResponse
    // -------------------------------------------------------------------------------------

    /** The application changes status, reason or headers. */
    method Ask(w: Wish)
      requires Valid()
      modifies this`wish
      ensures Valid() && Value() == old(Value()).(wish := w)
    {
      wish := w;
    }

    method PrepareResponseHeaders()
      modifies this`wish, this`header
      ensures wish == Consumed(old(wish)) && header == Prepare(old(wish), old(header))
    {
      var connection := wish.connection;
      wish := wish.(connection := NoConnection);
      if connection == ManyConnections {
        wish := wish.(statusCode := 500);
        header := header.(shown := []);
        return;
      }
      if connection == Close {
        header := header.(keepAlive := false);
      } else if connection == KeepAlive {
        header := header.(keepAlive := true);
      }
      var lengthHeader := wish.lengthHeader;
      wish := wish.(lengthHeader := NoLength);
      match lengthHeader {
        case NoLength =>
        case BadLength =>
          wish := wish.(statusCode := 500);
          header := header.(shown := []);
          return;
        case Declared(n) =>
          header := header.(contentLength := n);
      }
      AddResponseHeaders();
    }

    /** headers.Remove("Transfer-Encoding"), then AddResponseHeader for each header that is left. */
    method AddResponseHeaders()
      modifies this`header
      ensures header == old(header).(shown := Passed(wish.fields))
    {
      hide SameIgnoringCase;
      var fields := wish.fields;
      var shown: seq<(string, seq<string>)> := [];
      for i := 0 to |fields|
        invariant shown == Passed(fields[..i])
      {
        assert fields[..i + 1][..i] == fields[..i];
        if !SameIgnoringCase(fields[i].0, "Transfer-Encoding") {
          shown := shown + [fields[i]];
        }
      }
      assert fields[..|fields|] == fields;
      header := header.(shown := shown);
    }

    method DecideHeaders(finished: bool)
      modifies this`wish, this`header
      ensures wish == Consumed(old(wish))
      ensures header == Decide(config, old(wish), old(header), position, finished)
    {
      hide Prepare;
      PrepareResponseHeaders();
      var status := wish.statusCode;
      if status < 200 || status > 999 {
        status := 500;
      }
      if finished && !config.isHead {
        if header.contentLength != ULONG_MAX && header.contentLength != position {
          status := 500;
        }
        header := header.(contentLength := position);
      }
      if status == 500 {
        header := header.(keepAlive := false);
      }
      if header.contentLength == ULONG_MAX {
        if config.isHttp10 {
          header := header.(keepAlive := false);
        } else {
          header := header.(chunked := true);
        }
      }
      header := header.(statusCode := status, reason := wish.reason, date := wish.date);
    }

    method FillResponse(finished: bool)
      requires Valid()
      modifies this`wish, this`header, this`head, this`headerPos, buffer
      ensures Valid()
      ensures wish == Consumed(old(wish)) && header == Decide(config, old(wish), old(header), position, finished)
      ensures head == HeaderBlock(config, header)
      ensures Value() == old(Value()).(wish := wish, header := header, head := head)
      ensures headerPos == |head|
      ensures headerPos <= config.size ==> buffer[HeaderOffset()..HeaderOffset() + headerPos] == head
      ensures forall i :: 0 <= i < buffer.Length && !InHeader(i) ==> buffer[i] == old(buffer[i])
    {
      hide Decide, HeaderText, Latin1, Consumed;
      DecideHeaders(finished);
      AppendHeaderText();
      head := HeaderBlock(config, header);
      assert buffer[BodyOffset()..BodyOffset() + localPos] == old(buffer[BodyOffset()..BodyOffset() + localPos]);
    }

    method AppendHeaderText()
      requires Valid() && 200 <= header.statusCode <= 999
      modifies this`headerPos, buffer
      ensures Valid() && HeaderHolds(HeaderText(config, header))
      ensures forall i :: 0 <= i < buffer.Length && !InHeader(i) ==> buffer[i] == old(buffer[i])
    {
      hide StatusLine, FramingLines, ConnectionLines, ServerLines, FieldLines, Latin1;
      AppendStatusLine(header.statusCode);
      ghost var text := StatusLine(header);
      AppendFramingLines(text);
      text := text + FramingLines(config, header);
      AppendConnectionLines(text);
      text := text + ConnectionLines(config, header);
      AppendServerLines(text);
      text := text + ServerLines(config, header);
      AppendFields(text);
      HeaderAppendCrLf(text + FieldLines(header.shown));
    }

    method AppendFramingLines(ghost sofar: string)
      requires Valid() && HeaderHolds(sofar)
      modifies this`headerPos, buffer
      ensures Valid() && HeaderHolds(sofar + FramingLines(config, header))
      ensures forall i :: 0 <= i < buffer.Length && !InHeader(i) ==> buffer[i] == old(buffer[i])
    {
      assert sofar + "" == sofar;
      if header.contentLength != ULONG_MAX {
        AppendLine("Content-Length: ", Decimal(header.contentLength), sofar);
      } else if !config.isHttp10 {
        HeaderAppend("Transfer-Encoding: chunked\r\n", sofar);
      }
    }

    method AppendConnectionLines(ghost sofar: string)
      requires Valid() && HeaderHolds(sofar)
      modifies this`headerPos, buffer
      ensures Valid() && HeaderHolds(sofar + ConnectionLines(config, header))
      ensures forall i :: 0 <= i < buffer.Length && !InHeader(i) ==> buffer[i] == old(buffer[i])
    {
      assert sofar + "" == sofar;
      if config.isHttp10 && header.keepAlive {
        HeaderAppend("Connection: keep-alive\r\n", sofar);
      }
      if !header.keepAlive {
        HeaderAppend("Connection: close\r\n", sofar);
      }
    }

    // -------------------------------------------------------------------------------------
    // Sending
    // -------------------------------------------------------------------------------------

    /** Callback.StartSend on the connection buffer; `block` is the application's part of the bytes. */
    method StartSend(offset: nat, len: nat, ghost block: seq<Byte>)
      requires offset + len <= buffer.Length
      modifies this`trace
      ensures trace == Emit(old(trace), buffer[offset..offset + len], block)
    {
      trace := Emit(trace, buffer[offset..offset + len], block);
    }

    /** WrapInChunk on the body region: the framing lands in the spare bytes around it. */
    method WrapBody(len: nat) returns (offset: nat, length: nat)
      requires Valid() && len <= config.size
      modifies buffer
      ensures BodyOffset() - 8 < offset && offset + length == BodyOffset() + len + 2
      ensures buffer[offset..offset + length] == EncodeChunk(old(buffer[BodyOffset()..BodyOffset() + len]))
      ensures forall i :: 0 <= i < buffer.Length && !(offset <= i < offset + length) ==> buffer[i] == old(buffer[i])
    {
      HexDigitsLength(len);
      offset, length := WrapInChunk(buffer, start + config.size * 2 + 8, len);
    }

    /** The header block moves next to the body bytes at [offset, offset + len). */
    method MergeHeader(offset: nat, len: nat) returns (o: nat, l: nat)
      requires Valid() && headerPos <= config.size
      requires BodyOffset() - 8 < offset && offset + len <= BodyOffset() + config.size + 2
      modifies buffer
      ensures HeaderOffset() <= o && o + l <= SliceEnd()
      ensures buffer[o..o + l]
           == old(buffer[HeaderOffset()..HeaderOffset() + headerPos]) + old(buffer[offset..offset + len])
      ensures forall i :: 0 <= i < buffer.Length && !Writable(i) ==> buffer[i] == old(buffer[i])
    {
      o, l := OptimallyMergeTwoRegions(buffer, start + config.size, headerPos, offset, len);
    }

    /**
     * WriteAsync for a block in the body region (`own`) or in the caller's own buffer.
     * The region's content counts as in flight: localPos is already reset by the caller.
     */
    method WriteAsync(own: bool, foreign: seq<Byte>, len: nat) returns (o: Outcome)
      requires Valid() && localPos == 0 && len <= config.size
      modifies this, buffer
      ensures Valid() && localPos == 0
      ensures (Value(), o) == Send(old(Value()),
                                   if own then old(buffer[BodyOffset()..BodyOffset() + len]) else foreign, own)
      ensures forall i :: 0 <= i < buffer.Length && !Writable(i) ==> buffer[i] == old(buffer[i])
    {
      hide SendFirst, Push, BodyBytes;
      ghost var block := if own then buffer[BodyOffset()..BodyOffset() + len] else foreign;
      if !headersSent {
        if !own {
          return WrongBuffer;
        }
        o := WriteFirst(len);
        return;
      }
      if header.chunked && !own {
        return WrongBuffer;
      }
      if config.isHead || (header.chunked && len == 0) {
        return Sent;
      }
      o := WriteLater(own, foreign, len);
    }

    method WriteLater(own: bool, foreign: seq<Byte>, len: nat) returns (o: Outcome)
      requires Valid() && localPos == 0 && len <= config.size
      requires headersSent && !config.isHead && (header.chunked ==> own)
      modifies this`closed, this`trace, buffer
      ensures Valid() && Value().local == []
      ensures var block := if own then old(buffer[BodyOffset()..BodyOffset() + len]) else foreign;
              (Value(), o) == Push(old(Value()), BodyBytes(header.chunked, block), block)
      ensures forall i :: 0 <= i < buffer.Length && !Writable(i) ==> buffer[i] == old(buffer[i])
    {
      hide EncodeChunk;
      ghost var block := if own then buffer[BodyOffset()..BodyOffset() + len] else foreign;
      var offset, length := start + config.size * 2 + 8, len;
      if own {
        offset, length := FrameBlock(header.chunked, len);
      }
      assert Value().local == old(Value()).local == [];
      o := CheckLength(block);
      if o == Sent {
        if own {
          StartSend(offset, length, block);
        } else {
          trace := Emit(trace, foreign, block);
        }
      }
    }

    /** Sending more than the declared Content-Length closes the connection instead. */
    method CheckLength(ghost block: seq<Byte>) returns (o: Outcome)
      modifies this`closed, this`trace
      ensures !config.isHead && header.contentLength != ULONG_MAX && position > header.contentLength
              ==> o == TooManyBytes && closed && trace == old(trace).(lost := old(trace).lost + |block|)
      ensures !(!config.isHead && header.contentLength != ULONG_MAX && position > header.contentLength)
              ==> o == Sent && closed == old(closed) && trace == old(trace)
    {
      if !config.isHead && header.contentLength != ULONG_MAX && position > header.contentLength {
        closed := true;
        trace := trace.(lost := trace.lost + |block|);
        return TooManyBytes;
      }
      return Sent;
    }

    /** Header block and framed body bytes side by side, ready to be sent, unless the block is too long. */
    method FillAndMerge(finished: bool, len: nat) returns (offset: nat, length: nat)
      requires Valid() && len <= config.size && (config.isHead ==> len == 0)
      modifies this`wish, this`header, this`head, this`headerPos, buffer
      ensures Valid()
      ensures wish == Consumed(old(wish)) && header == Decide(config, old(wish), old(header), position, finished)
      ensures head == HeaderBlock(config, header)
      ensures headerPos == |head|
      ensures headerPos <= config.size ==>
                && offset + length <= buffer.Length
                && buffer[offset..offset + length] ==
                   head + BodyBytes(!finished && header.chunked, old(buffer[BodyOffset()..BodyOffset() + len]))
      ensures finished ==>
                BodyBytes(false, old(buffer[BodyOffset()..BodyOffset() + len]))
                == old(buffer[BodyOffset()..BodyOffset() + len])
      ensures forall i :: 0 <= i < buffer.Length && !Writable(i) ==> buffer[i] == old(buffer[i])
    {
      hide Decide, HeaderBlock, EncodeChunk, Consumed, Latin1, Value, BodyBytes;
      ghost var block := buffer[BodyOffset()..BodyOffset() + len];
      PlainBytes(block);
      FillResponse(finished);
      offset, length := start + config.size * 2 + 8, len;
      if headerPos > config.size {
        return;
      }
      assert buffer[BodyOffset()..BodyOffset() + len] == block;
      offset, length := FrameBlock(!finished && header.chunked, len);
      assert buffer[HeaderOffset()..HeaderOffset() + headerPos] == head;
      offset, length := MergeHeader(offset, length);
    }

    method FrameBlock(chunk: bool, len: nat) returns (offset: nat, length: nat)
      requires Valid() && len <= config.size
      modifies buffer
      ensures BodyOffset() - 8 < offset && offset + length <= BodyOffset() + len + 2
      ensures buffer[offset..offset + length] == BodyBytes(chunk, old(buffer[BodyOffset()..BodyOffset() + len]))
      ensures forall i :: 0 <= i < buffer.Length && !(offset <= i < offset + length) ==> buffer[i] == old(buffer[i])
    {
      hide EncodeChunk;
      offset, length := start + config.size * 2 + 8, len;
      if chunk && len != 0 {
        offset, length := WrapBody(len);
      }
    }

    method WriteFirst(len: nat) returns (o: Outcome)
      requires Valid() && localPos == 0 && len <= config.size && !headersSent
      modifies this, buffer
      ensures Valid() && localPos == 0
      ensures (Value(), o) == SendFirst(old(Value()), old(buffer[BodyOffset()..BodyOffset() + len]))
      ensures forall i :: 0 <= i < buffer.Length && !Writable(i) ==> buffer[i] == old(buffer[i])
    {
      hide Decide, HeaderBlock, BodyBytes, Consumed, SendFirst, Push;
      ghost var r, block := Value(), buffer[BodyOffset()..BodyOffset() + len];
      var length := if config.isHead then 0 else len;
      ghost var b := buffer[BodyOffset()..BodyOffset() + length];
      assert b == if config.isHead then [] else block;
      FirstSend(r, block);
      var offset;
      offset, length := FillAndMerge(false, length);
      assert Value() == r.(wish := wish, header := header, head := head);
      if headerPos > config.size {
        trace := trace.(lost := trace.lost + |block|);
        return HeadersTooLong;
      }
      headersSent := true;
      o := PushBlock(offset, length, b);
    }

    method PushBlock(offset: nat, length: nat, ghost b: seq<Byte>) returns (o: Outcome)
      requires Valid() && offset + length <= buffer.Length
      modifies this`closed, this`trace
      ensures Valid() && (Value(), o) == Push(old(Value()), buffer[offset..offset + length], b)
    {
      o := CheckLength(b);
      if o == Sent {
        StartSend(offset, length, b);
      }
    }

    method FlushAsync() returns (o: Outcome)
      requires Valid()
      modifies this, buffer
      ensures Valid() && (Value(), o) == Flush(old(Value()))
      ensures forall i :: 0 <= i < buffer.Length && !Writable(i) ==> buffer[i] == old(buffer[i])
    {
      hide Send;
      var len := localPos;
      localPos := 0;
      assert Value() == old(Value()).(local := []);
      o := WriteAsync(true, [], len);
    }

    // -------------------------------------------------------------------------------------
    // ReqRespStream's writes
    // -------------------------------------------------------------------------------------

    /** Copies `data` behind the buffered bytes. */
    method Append(data: seq<Byte>)
      requires Valid() && |data| <= config.size - localPos
      modifies this`position, this`localPos, buffer
      ensures Valid() && Value() == Buffered(old(Value()), data)
      ensures forall i :: 0 <= i < buffer.Length && !Writable(i) ==> buffer[i] == old(buffer[i])
    {
      ghost var from, mid, to := BodyOffset(), BodyOffset() + localPos, BodyOffset() + localPos + |data|;
      CopyIn(data, buffer, start + config.size * 2 + 8 + localPos);
      Joined(buffer, from, mid, to);
      assert buffer[from..mid] == old(buffer[from..mid]);
      position := position + |data|;
      localPos := localPos + |data|;
    }

    method WriteAll(data: seq<Byte>) returns (o: Outcome)
      requires Valid()
      modifies this, buffer
      ensures Valid() && (Value(), o) == Write(old(Value()), data)
      ensures forall i :: 0 <= i < buffer.Length && !Writable(i) ==> buffer[i] == old(buffer[i])
    {
      if |data| <= config.size - localPos {
        Append(data);
        return Sent;
      }
      o := WriteOverflow(data);
    }

    method WriteOverflow(data: seq<Byte>) returns (o: Outcome)
      requires Valid() && data != []
      modifies this, buffer
      ensures Valid() && (Value(), o) == Overflow(old(Value()), data)
      ensures forall i :: 0 <= i < buffer.Length && !Writable(i) ==> buffer[i] == old(buffer[i])
    {
      hide Flush, Send, Buffered, Overflow, Filled;
      var rest := data;
      while true
        invariant Valid() && rest != []
        invariant Overflow(old(Value()), data) == Overflow(Value(), rest)
        invariant forall i :: 0 <= i < buffer.Length && !Writable(i) ==> buffer[i] == old(buffer[i])
        decreases |rest|
      {
        OverflowTurn(Value(), rest);
        if localPos == config.size {
          o := FlushAsync();
          if o != Sent {
            return;
          }
          if |rest| >= config.size && !header.chunked && headersSent {
            position := position + |rest|;
            o := WriteAsync(false, rest, 0);
            return;
          }
        }
        var tillEnd := FillBuffer(rest);
        if tillEnd == |rest| {
          return Sent;
        }
        rest := rest[tillEnd..];
      }
    }

    /** As much of `rest` as fits goes behind the buffered bytes. */
    method FillBuffer(rest: seq<Byte>) returns (tillEnd: nat)
      requires Valid() && localPos < config.size && rest != []
      modifies this`position, this`localPos, buffer
      ensures Valid() && 0 < tillEnd <= |rest|
      ensures Filled(old(Value()), rest) ==
              if tillEnd == |rest| then (Value(), Sent) else Overflow(Value(), rest[tillEnd..])
      ensures forall i :: 0 <= i < buffer.Length && !Writable(i) ==> buffer[i] == old(buffer[i])
    {
      hide Overflow, Buffered;
      tillEnd := config.size - localPos;
      if tillEnd > |rest| {
        tillEnd := |rest|;
      }
      assert rest[..|rest|] == rest;
      Append(rest[..tillEnd]);
    }

    // -------------------------------------------------------------------------------------
    // SendHttpResponseAndPrepareForNext
    // -------------------------------------------------------------------------------------

    method SendHttpResponseAndPrepareForNext()
      requires Valid()
      modifies this, buffer
      ensures Valid() && Value().(local := []) == Finish(old(Value())).(local := [])
      ensures forall i :: 0 <= i < buffer.Length && !Writable(i) ==> buffer[i] == old(buffer[i])
    {
      hide FinishFirst, BodyBytes, LastBytes;
      var offset, len := start + config.size * 2 + 8, if config.isHead then 0 else localPos;
      ghost var block := buffer[offset..offset + len];
      if !headersSent {
        FinishWithHeaders(len);
        return;
      }
      if header.contentLength != ULONG_MAX && position != header.contentLength {
        closed := true;
        return;
      }
      offset, len := FrameLast(len);
      lastPacket := true;
      StartSend(offset, len, block);
    }

    method FinishWithHeaders(len: nat)
      requires Valid() && !headersSent && len == if config.isHead then 0 else localPos
      modifies this, buffer
      ensures Valid()
      ensures Value().(local := []) ==
              FinishFirst(old(Value()), old(buffer[BodyOffset()..BodyOffset() + len])).(local := [])
      ensures forall i :: 0 <= i < buffer.Length && !Writable(i) ==> buffer[i] == old(buffer[i])
    {
      hide Decide, HeaderBlock, ErrorText, Utf8Text, BodyBytes;
      ghost var block := buffer[BodyOffset()..BodyOffset() + len];
      var offset, length := FillAndMerge(true, len);
      lastPacket := true;
      if headerPos > config.size {
        header := header.(keepAlive := false);
        trace := trace.(wire := trace.wire + Utf8Text(ErrorText(config, wish.date)));
        return;
      }
      headersSent := true;
      StartSend(offset, length, block);
    }

    method SendInternalServerError()
      requires Valid()
      modifies this`header, this`lastPacket, this`trace
      ensures Valid() && Value() == InternalError(old(Value()))
    {
      hide Utf8Text, ErrorText;
      header := header.(keepAlive := false);
      lastPacket := true;
      trace := trace.(wire := trace.wire + Utf8Text(ErrorText(config, wish.date)));
    }

    /** The application's task has ended: SetReponseStatusCodeForFails. */
    method SetStatusCodeForFails(task: TaskEnd)
      requires Valid()
      modifies this`wish
      ensures Valid() && Value() == AppDone(old(Value()), task)
    {
      if !task.Completes? {
        if !task.Faults? || !headersSent || wish.statusCode != 500 {
          wish := wish.(statusCode := if headersSent then ABORT else UNCAUGHT);
        }
        wish := wish.(reason := None);
      }
    }

    /** `late` is what the callbacks of a last FillResponse make of the wish. */
    method ResponseFinished(cancelled: bool, late: Option<Wish>)
      requires Valid()
      modifies this, buffer
      ensures Valid()
      ensures Value().(local := []) ==
              ResponseSpec.ResponseFinished(old(Value()), cancelled, late).(local := [])
      ensures forall i :: 0 <= i < buffer.Length && !Writable(i) ==> buffer[i] == old(buffer[i])
    {
      hide Finish, InternalError;
      if wish.statusCode == ABORT {
        header := header.(keepAlive := false);
        closed := true;
        return;
      }
      if wish.statusCode == UNCAUGHT || cancelled {
        if !headersSent {
          SendInternalServerError();
        } else {
          closed := true;
        }
        return;
      }
      RunCallbacks(late);
      SendHttpResponseAndPrepareForNext();
    }

    method RunCallbacks(late: Option<Wish>)
      requires Valid()
      modifies this`wish
      ensures Valid() && Value() == Late(old(Value()), late)
    {
      if late.Some? && !headersSent {
        wish := late.value;
      }
    }

    /** The last bytes behind the headers: for a chunked body the last chunk, if any, and the zero chunk. */
    method FrameLast(len: nat) returns (offset: nat, length: nat)
      requires Valid() && len <= config.size
      modifies buffer
      ensures offset + length <= buffer.Length
      ensures buffer[offset..offset + length]
           == LastBytes(header.chunked, old(buffer[BodyOffset()..BodyOffset() + len]))
      ensures forall i :: 0 <= i < buffer.Length && !Writable(i) ==> buffer[i] == old(buffer[i])
    {
      hide EncodeChunk;
      offset, length := FrameBlock(header.chunked, len);
      if !header.chunked {
        return;
      }
      length := AppendZeroChunk(buffer, offset, length);
    }
  }
}
