/**
 * What a client reads from the header block of a response (Nowin/Transport2HttpHandler.cs:576-702, 779-797),
 * line by line and digit by digit, by sections 3.1.2, 3.2 and 3.3 of RFC 7230.
 */
module ResponseWire {
  import opened Bytes
  import opened ResponseSpec

  // ---------------------------------------------------------------------------------------
  // The client's reader
  // ---------------------------------------------------------------------------------------

  /** Where the first CR stands. */
  function LineEnd(s: seq<Byte>): (n: nat)
    ensures n <= |s| && (n < |s| ==> s[n] == 13) && 13 !in s[..n]
  {
    if s == [] || s[0] == 13 then 0 else 1 + LineEnd(s[1..])
  }

  /** The lines up to the first empty one, and the number of bytes they take with it. */
  function ReadLines(s: seq<Byte>): (r: Option<(seq<seq<Byte>>, nat)>)
    ensures r.Some? ==> r.value.1 <= |s|
    decreases |s|
  {
    var n := LineEnd(s);
    if n + 2 > |s| || s[n + 1] != 10 then None
    else if n == 0 then Some(([], 2))
    else Preceded(s[..n], n + 2, ReadLines(s[n + 2..]))
  }

  function Preceded(line: seq<Byte>, used: nat, r: Option<(seq<seq<Byte>>, nat)>): Option<(seq<seq<Byte>>, nat)> {
    match r
    case None => None
    case Some((lines, more)) => Some(([line] + lines, used + more))
  }

  predicate IsNumber(s: seq<Byte>) {
    s != [] && forall i :: 0 <= i < |s| ==> 48 <= s[i] <= 57
  }

  /** The number with these decimal digits, the most significant first. */
  function NumberOf(s: seq<Byte>): int {
    if s == [] then 0 else NumberOf(s[..|s| - 1]) * 10 + s[|s| - 1] - 48
  }

  datatype Reply = Reply(status: int, reason: Option<seq<Byte>>, lines: seq<seq<Byte>>, size: nat)

  /** A status line with its three digits, header lines and the blank line. */
  function ReadReply(s: seq<Byte>): Option<Reply> {
    match ReadLines(s)
    case None => None
    case Some((lines, size)) =>
      if lines == [] || |lines[0]| < 12 || lines[0][..9] != [72, 84, 84, 80, 47, 49, 46, 49, 32] then None
      else if !IsNumber(lines[0][9..12]) || (|lines[0]| > 12 && lines[0][12] != 32) then None
      else
        var reason := if |lines[0]| > 12 then Some(lines[0][13..]) else None;
        Some(Reply(NumberOf(lines[0][9..12]), reason, lines[1..], size))
  }

  function NameOf(line: seq<Byte>): seq<Byte> {
    if line == [] || line[0] == 58 then [] else [line[0]] + NameOf(line[1..])
  }

  function SkipBlanks(s: seq<Byte>): seq<Byte> {
    if s != [] && (s[0] == 32 || s[0] == 9) then SkipBlanks(s[1..]) else s
  }

  /** What stands behind the colon and the blanks that follow it. */
  function ValueOf(line: seq<Byte>): seq<Byte> {
    if line == [] then [] else if line[0] == 58 then SkipBlanks(line[1..]) else ValueOf(line[1..])
  }

  /** The values of a header, in order. */
  function Values(lines: seq<seq<Byte>>, name: seq<Byte>): seq<seq<Byte>> {
    if lines == [] then []
    else (if SameText(NameOf(lines[0]), name) then [ValueOf(lines[0])] else []) + Values(lines[1..], name)
  }

  const CONTENT_LENGTH: seq<Byte> := [67, 111, 110, 116, 101, 110, 116, 45, 76, 101, 110, 103, 116, 104]
  const TRANSFER_ENCODING: seq<Byte> :=
    [84, 114, 97, 110, 115, 102, 101, 114, 45, 69, 110, 99, 111, 100, 105, 110, 103]
  const CONNECTION: seq<Byte> := [67, 111, 110, 110, 101, 99, 116, 105, 111, 110]
  const SERVER: seq<Byte> := [83, 101, 114, 118, 101, 114]
  const DATE: seq<Byte> := [68, 97, 116, 101]
  const CHUNKED: seq<Byte> := [99, 104, 117, 110, 107, 101, 100]
  const CLOSE: seq<Byte> := [99, 108, 111, 115, 101]
  const KEEP_ALIVE: seq<Byte> := [107, 101, 101, 112, 45, 97, 108, 105, 118, 101]

  /** The number in the one Content-Length, if it is one. */
  function LengthRead(r: Reply): Option<int> {
    var values := Values(r.lines, CONTENT_LENGTH);
    if |values| == 1 && IsNumber(values[0]) then Some(NumberOf(values[0])) else None
  }

  predicate ChunkedRead(r: Reply) {
    Values(r.lines, TRANSFER_ENCODING) == [CHUNKED]
  }

  // ---------------------------------------------------------------------------------------
  // Lines that are read back
  // ---------------------------------------------------------------------------------------

  /** Text that ends no line. */
  predicate OneLine(s: seq<Byte>) {
    13 !in s && 10 !in s
  }

  predicate TextLines(lines: seq<seq<Byte>>) {
    forall i :: 0 <= i < |lines| ==> lines[i] != [] && OneLine(lines[i])
  }

  function Rendered(lines: seq<seq<Byte>>): seq<Byte> {
    if lines == [] then [] else lines[0] + CRLF + Rendered(lines[1..])
  }

  lemma {:induction false} RenderedAppend(a: seq<seq<Byte>>, b: seq<seq<Byte>>)
    ensures Rendered(a + b) == Rendered(a) + Rendered(b)
  {
    if a == [] {
      assert a + b == b;
    } else {
      assert (a + b)[0] == a[0] && (a + b)[1..] == a[1..] + b;
      RenderedAppend(a[1..], b);
    }
  }

  lemma RenderedOne(line: seq<Byte>)
    ensures Rendered([line]) == line + CRLF
  {
    assert [line][1..] == [];
  }

  lemma {:induction false} LineEndIs(text: seq<Byte>, rest: seq<Byte>)
    requires 13 !in text
    ensures LineEnd(text + CRLF + rest) == |text|
  {
    var s := text + CRLF + rest;
    if text != [] {
      assert s[0] == text[0] && s[1..] == text[1..] + CRLF + rest;
      LineEndIs(text[1..], rest);
    }
  }

  lemma LineIsRead(text: seq<Byte>, rest: seq<Byte>)
    requires OneLine(text) && text != []
    ensures ReadLines(text + CRLF + rest) == Preceded(text, |text| + 2, ReadLines(rest))
  {
    hide LineEnd;
    var s := text + CRLF + rest;
    LineEndIs(text, rest);
    assert s[|text| + 1] == 10 && s[..|text|] == text && s[|text| + 2..] == rest;
  }

  lemma BlankIsRead(rest: seq<Byte>)
    ensures ReadLines(CRLF + rest) == Some(([], 2))
  {
    assert [] + CRLF + rest == CRLF + rest;
    LineEndIs([], rest);
  }

  /** Lines and a blank line are read back, whatever follows. */
  lemma {:induction false} LinesAreRead(lines: seq<seq<Byte>>, rest: seq<Byte>)
    requires TextLines(lines)
    ensures ReadLines(Rendered(lines) + CRLF + rest) == Some((lines, |Rendered(lines)| + 2))
  {
    hide ReadLines;
    if lines == [] {
      assert Rendered(lines) + CRLF + rest == CRLF + rest;
      BlankIsRead(rest);
    } else {
      LinesAreRead(lines[1..], rest);
      assert Rendered(lines) + CRLF + rest == lines[0] + CRLF + (Rendered(lines[1..]) + CRLF + rest);
      LineIsRead(lines[0], Rendered(lines[1..]) + CRLF + rest);
      assert [lines[0]] + lines[1..] == lines;
    }
  }

  // ---------------------------------------------------------------------------------------
  // Names and values
  // ---------------------------------------------------------------------------------------

  /** A header line with this name and value. */
  function LineOf(name: seq<Byte>, value: seq<Byte>): seq<Byte> {
    name + [58, 32] + value
  }

  lemma {:induction false} NamedLine(name: seq<Byte>, value: seq<Byte>)
    requires 58 !in name
    ensures NameOf(LineOf(name, value)) == name && ValueOf(LineOf(name, value)) == SkipBlanks(value)
  {
    var line := LineOf(name, value);
    if name == [] {
      assert line[0] == 58 && line[1..] == [32] + value && ([32] + value)[1..] == value;
    } else {
      assert line[0] == name[0] && line[1..] == LineOf(name[1..], value);
      NamedLine(name[1..], value);
    }
  }

  lemma {:induction false} ValuesAppend(a: seq<seq<Byte>>, b: seq<seq<Byte>>, name: seq<Byte>)
    ensures Values(a + b, name) == Values(a, name) + Values(b, name)
  {
    hide SameText;
    if a == [] {
      assert a + b == b;
    } else {
      assert (a + b)[0] == a[0] && (a + b)[1..] == a[1..] + b;
      ValuesAppend(a[1..], b, name);
    }
  }

  lemma ValuesOne(name: seq<Byte>, value: seq<Byte>, asked: seq<Byte>)
    requires 58 !in name
    ensures Values([LineOf(name, value)], asked) == if SameText(name, asked) then [SkipBlanks(value)] else []
  {
    hide SameText;
    NamedLine(name, value);
    assert [LineOf(name, value)][1..] == [];
    assert Values([], asked) == [];
  }

  lemma {:induction false} NoValues(lines: seq<seq<Byte>>, name: seq<Byte>)
    requires forall i :: 0 <= i < |lines| ==> !SameText(NameOf(lines[i]), name)
    ensures Values(lines, name) == []
  {
    hide SameText;
    if lines != [] {
      NoValues(lines[1..], name);
    }
  }

  // ---------------------------------------------------------------------------------------
  // Digits
  // ---------------------------------------------------------------------------------------

  lemma {:induction false} DecimalIsRead(n: nat)
    ensures IsNumber(Latin1(Decimal(n))) && NumberOf(Latin1(Decimal(n))) == n
    ensures SkipBlanks(Latin1(Decimal(n))) == Latin1(Decimal(n)) && OneLine(Latin1(Decimal(n)))
  {
    var s := Latin1(Decimal(n));
    if n < 10 {
      assert s == [48 + n];
      assert NumberOf(s[..0]) == 0;
    } else {
      DecimalIsRead(n / 10);
      assert s[..|s| - 1] == Latin1(Decimal(n / 10)) && s[|s| - 1] == 48 + n % 10;
    }
  }

  lemma StatusIsRead(status: int)
    requires 200 <= status <= 999
    ensures var s := Latin1(StatusDigits(status)); |s| == 3 && IsNumber(s) && NumberOf(s) == status && OneLine(s)
  {
    hide NumberOf;
    var s := Latin1(StatusDigits(status));
    StatusBytes(status);
    ThreeDigits(s);
  }

  lemma StatusBytes(status: int)
    requires 200 <= status <= 999
    ensures Latin1(StatusDigits(status)) == [48 + status / 100, 48 + status / 10 % 10, 48 + status % 10]
    ensures status / 100 * 100 + status / 10 % 10 * 10 + status % 10 == status && status / 100 <= 9
  {
  }

  lemma ThreeDigits(s: seq<Byte>)
    requires |s| == 3
    ensures NumberOf(s) == (s[0] as int - 48) * 100 + (s[1] as int - 48) * 10 + s[2] as int - 48
  {
    assert s[..2][..1] == s[..1] && s[..2][1] == s[1] && s[..1][0] == s[0] && s[..1][..0] == [];
    assert NumberOf([]) == 0;
    assert NumberOf(s[..1]) == s[0] as int - 48;
    assert NumberOf(s[..2]) == NumberOf(s[..1]) * 10 + s[1] as int - 48;
  }

  // ---------------------------------------------------------------------------------------
  // The lines of a header block
  // ---------------------------------------------------------------------------------------

  type Fields = seq<(string, seq<string>)>

  /** The header lines of one field, one for each value. */
  function TextsOf(field: (string, seq<string>)): (lines: seq<seq<Byte>>)
    ensures |lines| == |field.1|
  {
    seq(|field.1|, i requires 0 <= i < |field.1| => LineOf(Latin1(field.0), Latin1(field.1[i])))
  }

  /** Those of all fields, in order. */
  function Shown(fields: Fields): seq<seq<Byte>> {
    Concat(seq(|fields|, i requires 0 <= i < |fields| => TextsOf(fields[i])))
  }

  lemma Latin1Append(a: string, b: string)
    ensures Latin1(a + b) == Latin1(a) + Latin1(b)
  {
  }

  lemma LineText(name: string, value: string)
    ensures Latin1(name + ": " + value + "\r\n") == LineOf(Latin1(name), Latin1(value)) + CRLF
  {
    assert Latin1(": ") == [58, 32] && Latin1("\r\n") == CRLF;
    Latin1Append(name + ": " + value, "\r\n");
    Latin1Append(name + ": ", value);
    Latin1Append(name, ": ");
  }

  lemma {:induction false} ValueTexts(name: string, values: seq<string>)
    ensures Latin1(ValueLines(name, values)) == Rendered(TextsOf((name, values)))
  {
    hide Rendered, LineOf, Latin1;
    if values == [] {
      assert Latin1("") == [] && TextsOf((name, values)) == [];
      RenderedNone();
    } else {
      var n := |values| - 1;
      ValueTexts(name, values[..n]);
      var line := name + ": " + values[n] + "\r\n";
      assert ValueLines(name, values) == ValueLines(name, values[..n]) + line;
      Latin1Append(ValueLines(name, values[..n]), line);
      LineText(name, values[n]);
      var text := LineOf(Latin1(name), Latin1(values[n]));
      assert TextsOf((name, values)) == TextsOf((name, values[..n])) + [text];
      RenderedAppend(TextsOf((name, values[..n])), [text]);
      RenderedOne(text);
    }
  }

  lemma RenderedNone()
    ensures Rendered([]) == []
  {
  }

  lemma ShownMore(fields: Fields)
    requires fields != []
    ensures var n := |fields| - 1; Shown(fields) == Shown(fields[..n]) + TextsOf(fields[n])
  {
    hide TextsOf;
    var n := |fields| - 1;
    var parts := seq(n, i requires 0 <= i < n => TextsOf(fields[i]));
    assert seq(|fields|, i requires 0 <= i < |fields| => TextsOf(fields[i])) == parts + [TextsOf(fields[n])];
    assert seq(n, i requires 0 <= i < |fields[..n]| => TextsOf(fields[..n][i])) == parts;
    ConcatAppend(parts, [TextsOf(fields[n])]);
    ConcatSingle(TextsOf(fields[n]));
  }

  lemma {:induction false} FieldTexts(fields: Fields)
    ensures Latin1(FieldLines(fields)) == Rendered(Shown(fields))
  {
    hide Rendered, TextsOf, Latin1, ValueLines;
    if fields == [] {
      assert Latin1("") == [] && Shown(fields) == [];
      RenderedNone();
    } else {
      var n := |fields| - 1;
      FieldTexts(fields[..n]);
      Latin1Append(FieldLines(fields[..n]), ValueLines(fields[n].0, fields[n].1));
      ValueTexts(fields[n].0, fields[n].1);
      ShownMore(fields);
      RenderedAppend(Shown(fields[..n]), TextsOf(fields[n]));
    }
  }

  /** The header is there already, whatever the case of its name. */
  predicate Names(fields: Fields, name: string) {
    exists i :: 0 <= i < |fields| && SameName(fields[i].0, name)
  }

  predicate SameName(a: string, b: string) {
    |a| == |b| && forall i :: 0 <= i < |a| ==> SameChar(a[i], b[i])
  }

  predicate SameChar(x: char, y: char) {
    || x == y
    || ('A' <= x <= 'Z' && y as int == x as int + 32)
    || ('A' <= y <= 'Z' && x as int == y as int + 32)
  }

  lemma SameNameIs(a: string, b: string)
    ensures SameIgnoringCase(a, b) <==> SameName(a, b)
  {
    if |a| == |b| {
      forall i | 0 <= i < |a|
        ensures LowerChar(a[i]) == LowerChar(b[i]) <==> SameChar(a[i], b[i])
      {
      }
    }
  }

  lemma NamesIs(fields: Fields, name: string)
    ensures Overwritten(fields, name) <==> Names(fields, name)
  {
    hide SameIgnoringCase, SameName;
    forall i | 0 <= i < |fields|
      ensures SameIgnoringCase(fields[i].0, name) <==> SameName(fields[i].0, name)
    {
      SameNameIs(fields[i].0, name);
    }
  }

  /** The lines the server writes itself. */
  function FramingTexts(config: Config, h: Header): seq<seq<Byte>> {
    if h.contentLength != ULONG_MAX then [LineOf(CONTENT_LENGTH, Latin1(Decimal(h.contentLength)))]
    else if config.isHttp10 then []
    else [LineOf(TRANSFER_ENCODING, CHUNKED)]
  }

  function ConnectionTexts(config: Config, h: Header): seq<seq<Byte>> {
    if !h.keepAlive then [LineOf(CONNECTION, CLOSE)]
    else if config.isHttp10 then [LineOf(CONNECTION, KEEP_ALIVE)]
    else []
  }

  function ServerTexts(config: Config, h: Header): seq<seq<Byte>> {
    if config.serverName.Some? && !Names(h.shown, "Server")
    then [LineOf(SERVER, Latin1(config.serverName.value))] else []
  }

  function DateTexts(h: Header): seq<seq<Byte>> {
    if !Names(h.shown, "Date") then [LineOf(DATE, Latin1(h.date))] else []
  }

  function StatusText(h: Header): seq<Byte>
    requires 200 <= h.statusCode <= 999
  {
    [72, 84, 84, 80, 47, 49, 46, 49, 32] + Latin1(StatusDigits(h.statusCode)) +
    if h.reason.Some? then [32] + Latin1(h.reason.value) else []
  }

  function OwnTexts(config: Config, h: Header): seq<seq<Byte>> {
    FramingTexts(config, h) + ConnectionTexts(config, h) + ServerTexts(config, h) + DateTexts(h)
  }

  lemma RenderedIf(name: string, value: string, text: string)
    requires text == name + ": " + value + "\r\n"
    ensures Latin1(text) == Rendered([LineOf(Latin1(name), Latin1(value))])
  {
    LineText(name, value);
    RenderedOne(LineOf(Latin1(name), Latin1(value)));
  }

  lemma NoText()
    ensures Latin1("") == [] && Rendered([]) == []
  {
  }

  lemma StatusLineText(h: Header)
    requires 200 <= h.statusCode <= 999
    ensures Latin1(StatusLine(h)) == StatusText(h) + CRLF
  {
    hide StatusDigits, Latin1;
    var digits := StatusDigits(h.statusCode);
    var reason := if h.reason.Some? then " " + h.reason.value else "";
    assert Latin1("HTTP/1.1 ") == [72, 84, 84, 80, 47, 49, 46, 49, 32] && Latin1("\r\n") == CRLF && Latin1(" ") == [32];
    Latin1Append("HTTP/1.1 " + digits + reason, "\r\n");
    Latin1Append("HTTP/1.1 " + digits, reason);
    Latin1Append("HTTP/1.1 ", digits);
    if h.reason.Some? {
      Latin1Append(" ", h.reason.value);
    }
  }

  lemma FramingLinesText(config: Config, h: Header)
    ensures Latin1(FramingLines(config, h)) == Rendered(FramingTexts(config, h))
  {
    hide Rendered, LineOf, Decimal;
    NoText();
    if h.contentLength != ULONG_MAX {
      assert Latin1("Content-Length") == CONTENT_LENGTH;
      RenderedIf("Content-Length", Decimal(h.contentLength), FramingLines(config, h));
    } else if !config.isHttp10 {
      assert Latin1("Transfer-Encoding") == TRANSFER_ENCODING && Latin1("chunked") == CHUNKED;
      RenderedIf("Transfer-Encoding", "chunked", FramingLines(config, h));
    }
  }

  lemma ConnectionLinesText(config: Config, h: Header)
    ensures Latin1(ConnectionLines(config, h)) == Rendered(ConnectionTexts(config, h))
  {
    hide Rendered, LineOf;
    NoText();
    assert Latin1("Connection") == CONNECTION && Latin1("close") == CLOSE && Latin1("keep-alive") == KEEP_ALIVE;
    if !h.keepAlive {
      RenderedIf("Connection", "close", ConnectionLines(config, h));
    } else if config.isHttp10 {
      RenderedIf("Connection", "keep-alive", ConnectionLines(config, h));
    }
  }

  /** A line that is left out under a condition. */
  lemma RenderedOrNot(said: bool, name: string, value: string)
    ensures Latin1(if said then name + ": " + value + "\r\n" else "") ==
            Rendered(if said then [LineOf(Latin1(name), Latin1(value))] else [])
  {
    hide Rendered, LineOf, Latin1;
    NoText();
    if said {
      RenderedIf(name, value, name + ": " + value + "\r\n");
    }
  }

  lemma ServerNames()
    ensures Latin1("Server") == SERVER && Latin1("Date") == DATE
    ensures forall s: string :: "Server" + ": " + s == "Server: " + s && "Date" + ": " + s == "Date: " + s
  {
  }

  lemma ServerLinesText(config: Config, h: Header)
    ensures Latin1(ServerLines(config, h)) == Rendered(ServerTexts(config, h) + DateTexts(h))
  {
    hide Rendered, LineOf, Overwritten, Names, Latin1;
    NamesIs(h.shown, "Server");
    NamesIs(h.shown, "Date");
    ServerNames();
    var named := config.serverName.Some? && !Overwritten(h.shown, "Server");
    var name := if named then config.serverName.value else "";
    var server := if named then "Server" + ": " + name + "\r\n" else "";
    var date := if !Overwritten(h.shown, "Date") then "Date" + ": " + h.date + "\r\n" else "";
    assert ServerLines(config, h) == server + date;
    RenderedOrNot(named, "Server", name);
    RenderedOrNot(!Overwritten(h.shown, "Date"), "Date", h.date);
    Latin1Append(server, date);
    RenderedAppend(ServerTexts(config, h), DateTexts(h));
  }

  /** The header block is these lines and a blank one. */
  lemma HeaderBlockText(config: Config, h: Header)
    requires 200 <= h.statusCode <= 999
    ensures HeaderBlock(config, h) ==
            Rendered([StatusText(h)] + (OwnTexts(config, h) + Shown(h.shown))) + CRLF
  {
    hide StatusLine, FramingLines, ConnectionLines, ServerLines, FieldLines, Rendered, StatusText, Shown, Latin1;
    hide FramingTexts, ConnectionTexts, ServerTexts, DateTexts;
    var a, b, c, d, e := StatusLine(h), FramingLines(config, h), ConnectionLines(config, h), ServerLines(config, h),
                         FieldLines(h.shown);
    assert Latin1("\r\n") == CRLF;
    Latin1Append(a + b + c + d + e, "\r\n");
    Latin1Append(a + b + c + d, e);
    Latin1Append(a + b + c, d);
    Latin1Append(a + b, c);
    Latin1Append(a, b);
    StatusLineText(h);
    FramingLinesText(config, h);
    ConnectionLinesText(config, h);
    ServerLinesText(config, h);
    FieldTexts(h.shown);
    RenderedOne(StatusText(h));
    var f, g, s, k := FramingTexts(config, h), ConnectionTexts(config, h), ServerTexts(config, h), DateTexts(h);
    assert OwnTexts(config, h) == f + (g + (s + k));
    RenderedAppend([StatusText(h)], OwnTexts(config, h) + Shown(h.shown));
    RenderedAppend(OwnTexts(config, h), Shown(h.shown));
    RenderedAppend(f, g + (s + k));
    RenderedAppend(g, s + k);
  }

  // ---------------------------------------------------------------------------------------
  // What is read from a header block
  // ---------------------------------------------------------------------------------------

  /** Texts that the application and the server put into the header block end no line. */
  predicate SingleLines(config: Config, h: Header) {
    && (config.serverName.Some? ==> OneLine(Latin1(config.serverName.value)))
    && (h.reason.Some? ==> OneLine(Latin1(h.reason.value)))
    && OneLine(Latin1(h.date))
    && OneLineFields(h.shown)
  }

  predicate OneLineFields(fields: Fields) {
    forall i :: 0 <= i < |fields| ==> OneLineField(fields[i])
  }

  predicate OneLineField(f: (string, seq<string>)) {
    OneLine(Latin1(f.0)) && forall k :: 0 <= k < |f.1| ==> OneLine(Latin1(f.1[k]))
  }

  /** No field looks like a header by which the server delimits the response. */
  predicate Separate(fields: Fields) {
    forall line <- Shown(fields) ::
      !SameText(NameOf(line), CONTENT_LENGTH) && !SameText(NameOf(line), TRANSFER_ENCODING)
      && !SameText(NameOf(line), CONNECTION)
  }

  /** What the client finds in `reply` is what has been decided. */
  ghost predicate Tells(reply: Reply, config: Config, h: Header) {
    var shown := Shown(h.shown);
    && reply.status == h.statusCode
    && reply.reason == (if h.reason.Some? then Some(Latin1(h.reason.value)) else None)
    && LengthRead(reply) == (if h.contentLength == ULONG_MAX then None else Some(h.contentLength))
    && (h.contentLength == ULONG_MAX ==> Values(reply.lines, CONTENT_LENGTH) == [])
    && Values(reply.lines, TRANSFER_ENCODING)
       == (if h.contentLength == ULONG_MAX && !config.isHttp10 then [CHUNKED] else [])
    && Values(reply.lines, CONNECTION)
       == (if !h.keepAlive then [CLOSE] else if config.isHttp10 then [KEEP_ALIVE] else [])
    && Values(reply.lines, SERVER)
       == (if config.serverName.Some? && !Names(h.shown, "Server")
           then [SkipBlanks(Latin1(config.serverName.value))] else []) + Values(shown, SERVER)
    && Values(reply.lines, DATE)
       == (if !Names(h.shown, "Date") then [SkipBlanks(Latin1(h.date))] else []) + Values(shown, DATE)
    && |shown| <= |reply.lines| && reply.lines[|reply.lines| - |shown|..] == shown
    && forall name :: !OwnName(name) ==> Values(reply.lines, name) == Values(shown, name)
  }

  predicate OwnName(name: seq<Byte>) {
    || SameText(CONTENT_LENGTH, name) || SameText(TRANSFER_ENCODING, name) || SameText(CONNECTION, name)
    || SameText(SERVER, name) || SameText(DATE, name)
  }

  lemma {:induction false} ShownIsText(fields: Fields)
    requires OneLineFields(fields)
    ensures TextLines(Shown(fields))
    decreases |fields|
  {
    hide Shown, OneLineField, TextsOf;
    if fields == [] {
      assert Shown(fields) == [] by { ShownNone(); }
    } else {
      var n := |fields| - 1;
      ShownIsText(fields[..n]);
      ShownMore(fields);
      FieldIsText(fields[n]);
    }
  }

  lemma ShownNone()
    ensures Shown([]) == []
  {
  }

  lemma FieldIsText(field: (string, seq<string>))
    requires OneLineField(field)
    ensures TextLines(TextsOf(field))
  {
    hide Latin1;
  }

  lemma StatusIsText(h: Header)
    requires 200 <= h.statusCode <= 999 && (h.reason.Some? ==> OneLine(Latin1(h.reason.value)))
    ensures TextLines([StatusText(h)])
  {
    hide Latin1, StatusDigits;
    StatusIsRead(h.statusCode);
  }

  lemma LineIsText(name: seq<Byte>, value: seq<Byte>)
    requires OneLine(name) && OneLine(value)
    ensures TextLines([LineOf(name, value)])
  {
  }

  lemma OwnIsText(config: Config, h: Header)
    requires SingleLines(config, h)
    ensures TextLines(OwnTexts(config, h))
  {
    hide Latin1, Decimal, Names, OneLineFields, OneLine, LineOf;
    OwnNamesAreText();
    DecimalIsRead(h.contentLength);
    LineIsText(CONTENT_LENGTH, Latin1(Decimal(h.contentLength)));
    LineIsText(TRANSFER_ENCODING, CHUNKED);
    LineIsText(CONNECTION, CLOSE);
    LineIsText(CONNECTION, KEEP_ALIVE);
    if config.serverName.Some? {
      LineIsText(SERVER, Latin1(config.serverName.value));
    }
    LineIsText(DATE, Latin1(h.date));
  }

  /** The lines of a header block are read back, whatever follows it. */
  lemma BlockLinesAreRead(config: Config, h: Header, rest: seq<Byte>)
    requires 200 <= h.statusCode <= 999 && SingleLines(config, h)
    ensures ReadLines(HeaderBlock(config, h) + rest) ==
            Some(([StatusText(h)] + (OwnTexts(config, h) + Shown(h.shown)), |HeaderBlock(config, h)|))
  {
    hide HeaderBlock, Rendered, StatusText, OwnTexts, Shown, OneLine, ReadLines, Latin1;
    HeaderBlockText(config, h);
    StatusIsText(h);
    OwnIsText(config, h);
    ShownIsText(h.shown);
    LinesAreRead([StatusText(h)] + (OwnTexts(config, h) + Shown(h.shown)), rest);
  }

  lemma StatusTextIsRead(h: Header)
    requires 200 <= h.statusCode <= 999
    ensures var s := StatusText(h);
            && |s| >= 12 && s[..9] == [72, 84, 84, 80, 47, 49, 46, 49, 32]
            && IsNumber(s[9..12]) && NumberOf(s[9..12]) == h.statusCode
            && if h.reason.Some? then |s| > 12 && s[12] == 32 && s[13..] == Latin1(h.reason.value) else |s| == 12
  {
    hide StatusDigits, NumberOf;
    var s := StatusText(h);
    StatusIsRead(h.statusCode);
    assert s[9..12] == Latin1(StatusDigits(h.statusCode));
  }

  lemma OwnNamesAre()
    ensures |CONTENT_LENGTH| == 14 && |TRANSFER_ENCODING| == 17 && |CONNECTION| == 10 && |SERVER| == 6 && |DATE| == 4
    ensures 58 !in CONTENT_LENGTH && 58 !in TRANSFER_ENCODING && 58 !in CONNECTION && 58 !in SERVER && 58 !in DATE
    ensures SkipBlanks(CHUNKED) == CHUNKED && SkipBlanks(CLOSE) == CLOSE && SkipBlanks(KEEP_ALIVE) == KEEP_ALIVE
  {
  }

  lemma OwnNamesAreText()
    ensures OneLine(CONTENT_LENGTH) && OneLine(TRANSFER_ENCODING) && OneLine(CONNECTION) && OneLine(SERVER)
    ensures OneLine(DATE) && OneLine(CHUNKED) && OneLine(CLOSE) && OneLine(KEEP_ALIVE)
  {
  }

  /** Their lengths differ. */
  lemma OwnNamesDiffer(name: seq<Byte>)
    requires name in {CONTENT_LENGTH, TRANSFER_ENCODING, CONNECTION, SERVER, DATE}
    ensures SameText(CONTENT_LENGTH, name) <==> name == CONTENT_LENGTH
    ensures SameText(TRANSFER_ENCODING, name) <==> name == TRANSFER_ENCODING
    ensures SameText(CONNECTION, name) <==> name == CONNECTION
    ensures SameText(SERVER, name) <==> name == SERVER
    ensures SameText(DATE, name) <==> name == DATE
  {
    OwnNamesAre();
  }

  /** The server's own lines, looked up by name. */
  lemma OwnValues(config: Config, h: Header, name: seq<Byte>)
    ensures Values(OwnTexts(config, h), name) ==
            (if h.contentLength != ULONG_MAX
             then if SameText(CONTENT_LENGTH, name) then [Latin1(Decimal(h.contentLength))] else []
             else if !config.isHttp10 && SameText(TRANSFER_ENCODING, name) then [CHUNKED] else []) +
            (if SameText(CONNECTION, name)
             then if !h.keepAlive then [CLOSE] else if config.isHttp10 then [KEEP_ALIVE] else []
             else []) +
            (if config.serverName.Some? && !Names(h.shown, "Server") && SameText(SERVER, name)
             then [SkipBlanks(Latin1(config.serverName.value))] else []) +
            (if !Names(h.shown, "Date") && SameText(DATE, name) then [SkipBlanks(Latin1(h.date))] else [])
  {
    hide Values, LineOf, SameText, Names, Latin1, Decimal, SkipBlanks;
    OwnNamesAre();
    DecimalIsRead(h.contentLength);
    NoneAsked(name);
    var f, g, s, d := FramingTexts(config, h), ConnectionTexts(config, h), ServerTexts(config, h), DateTexts(h);
    ValuesAppend(f + g + s, d, name);
    ValuesAppend(f + g, s, name);
    ValuesAppend(f, g, name);
    ValuesOne(CONTENT_LENGTH, Latin1(Decimal(h.contentLength)), name);
    ValuesOne(TRANSFER_ENCODING, CHUNKED, name);
    ValuesOne(CONNECTION, CLOSE, name);
    ValuesOne(CONNECTION, KEEP_ALIVE, name);
    if config.serverName.Some? {
      ValuesOne(SERVER, Latin1(config.serverName.value), name);
    }
    ValuesOne(DATE, Latin1(h.date), name);
  }

  lemma NoneAsked(name: seq<Byte>)
    ensures Values([], name) == []
  {
  }

  lemma ReplyFrom(h: Header, s: seq<Byte>, lines: seq<seq<Byte>>, size: nat)
    requires 200 <= h.statusCode <= 999 && ReadLines(s) == Some(([StatusText(h)] + lines, size))
    ensures ReadReply(s) == Some(Reply(h.statusCode, if h.reason.Some? then Some(Latin1(h.reason.value)) else None,
                                       lines, size))
  {
    hide StatusText, ReadLines, Latin1, NumberOf, IsNumber;
    StatusTextIsRead(h);
    assert ([StatusText(h)] + lines)[1..] == lines && ([StatusText(h)] + lines)[0] == StatusText(h);
  }

  lemma ReplyIsRead(config: Config, h: Header, rest: seq<Byte>)
    requires 200 <= h.statusCode <= 999 && SingleLines(config, h)
    ensures ReadReply(HeaderBlock(config, h) + rest) ==
            Some(Reply(h.statusCode, if h.reason.Some? then Some(Latin1(h.reason.value)) else None,
                       OwnTexts(config, h) + Shown(h.shown), |HeaderBlock(config, h)|))
  {
    hide HeaderBlock, StatusText, OwnTexts, Shown, SingleLines, ReadLines, ReadReply, Latin1;
    BlockLinesAreRead(config, h, rest);
    ReplyFrom(h, HeaderBlock(config, h) + rest, OwnTexts(config, h) + Shown(h.shown), |HeaderBlock(config, h)|);
  }

  /** A header by its name: first what the server says, then the application's fields. */
  lemma ValuesRead(config: Config, h: Header, name: seq<Byte>)
    ensures Values(OwnTexts(config, h) + Shown(h.shown), name) ==
            Values(OwnTexts(config, h), name) + Values(Shown(h.shown), name)
    ensures Separate(h.shown) && name in {CONTENT_LENGTH, TRANSFER_ENCODING, CONNECTION} ==>
              Values(OwnTexts(config, h) + Shown(h.shown), name) == Values(OwnTexts(config, h), name)
  {
    hide OwnTexts, Shown, Values, SameText;
    ValuesAppend(OwnTexts(config, h), Shown(h.shown), name);
    if Separate(h.shown) && name in {CONTENT_LENGTH, TRANSFER_ENCODING, CONNECTION} {
      NoValues(Shown(h.shown), name);
    }
  }

  lemma DelimitersRead(config: Config, h: Header)
    requires Separate(h.shown)
    ensures var lines := OwnTexts(config, h) + Shown(h.shown);
            && Values(lines, CONTENT_LENGTH)
               == (if h.contentLength != ULONG_MAX then [Latin1(Decimal(h.contentLength))] else [])
            && Values(lines, TRANSFER_ENCODING)
               == (if h.contentLength == ULONG_MAX && !config.isHttp10 then [CHUNKED] else [])
            && Values(lines, CONNECTION)
               == (if !h.keepAlive then [CLOSE] else if config.isHttp10 then [KEEP_ALIVE] else [])
  {
    hide OwnTexts, Shown, Values, SameText, Latin1, Decimal, Separate, Names, SkipBlanks;
    OwnNamesAre();
    OwnNamesDiffer(CONTENT_LENGTH);
    OwnNamesDiffer(TRANSFER_ENCODING);
    OwnNamesDiffer(CONNECTION);
    ValuesRead(config, h, CONTENT_LENGTH);
    ValuesRead(config, h, TRANSFER_ENCODING);
    ValuesRead(config, h, CONNECTION);
    OwnValues(config, h, CONTENT_LENGTH);
    OwnValues(config, h, TRANSFER_ENCODING);
    OwnValues(config, h, CONNECTION);
  }

  lemma ServerRead(config: Config, h: Header)
    ensures Values(OwnTexts(config, h) + Shown(h.shown), SERVER) ==
            (if config.serverName.Some? && !Names(h.shown, "Server")
             then [SkipBlanks(Latin1(config.serverName.value))] else []) + Values(Shown(h.shown), SERVER)
  {
    hide OwnTexts, Shown, Values, SameText, Latin1, Decimal, Names, SkipBlanks;
    OwnNamesAre();
    OwnNamesDiffer(SERVER);
    ValuesRead(config, h, SERVER);
    OwnValues(config, h, SERVER);
  }

  lemma DateRead(config: Config, h: Header)
    ensures Values(OwnTexts(config, h) + Shown(h.shown), DATE) ==
            (if !Names(h.shown, "Date") then [SkipBlanks(Latin1(h.date))] else []) + Values(Shown(h.shown), DATE)
  {
    hide OwnTexts, Shown, Values, SameText, Latin1, Decimal, Names, SkipBlanks;
    OwnNamesAre();
    OwnNamesDiffer(DATE);
    ValuesRead(config, h, DATE);
    OwnValues(config, h, DATE);
  }

  lemma OthersRead(config: Config, h: Header, name: seq<Byte>)
    requires !OwnName(name)
    ensures Values(OwnTexts(config, h) + Shown(h.shown), name) == Values(Shown(h.shown), name)
  {
    hide OwnTexts, Shown, Values, SameText, Latin1, Decimal, Names, SkipBlanks;
    ValuesRead(config, h, name);
    OwnValues(config, h, name);
  }

  /**
   * Every header block is read as it was decided: status, reason, how the body is delimited, whether the
   * connection stays open, and every field of the application, in order, up to the blank line.
   */
  lemma HeaderBlockIsRead(config: Config, h: Header, rest: seq<Byte>)
    requires 200 <= h.statusCode <= 999 && SingleLines(config, h) && Separate(h.shown)
    ensures var r := ReadReply(HeaderBlock(config, h) + rest);
            r.Some? && r.value.size == |HeaderBlock(config, h)| && Tells(r.value, config, h)
  {
    hide HeaderBlock, OwnTexts, Shown, SingleLines, ReadReply, Values, Separate, Names, Latin1, SkipBlanks, OwnName;
    hide NumberOf, IsNumber, Decimal;
    var shown := Shown(h.shown);
    ReplyIsRead(config, h, rest);
    var reply := ReadReply(HeaderBlock(config, h) + rest).value;
    assert shown == reply.lines[|reply.lines| - |shown|..];
    DecimalIsRead(h.contentLength);
    DelimitersRead(config, h);
    ServerRead(config, h);
    DateRead(config, h);
    forall name | !OwnName(name)
      ensures Values(reply.lines, name) == Values(shown, name)
    {
      OthersRead(config, h, name);
    }
  }

  // ---------------------------------------------------------------------------------------
  // The application's fields by name
  // ---------------------------------------------------------------------------------------

  /** The values that a field line carries for the client, blanks in front of them aside. */
  function ValuesIn(values: seq<string>): (r: seq<seq<Byte>>)
    ensures |r| == |values|
  {
    seq(|values|, i requires 0 <= i < |values| => SkipBlanks(Latin1(values[i])))
  }

  /** What the application has put under a name, in whatever case, in order. */
  function Under(fields: Fields, name: seq<Byte>): seq<seq<Byte>> {
    if fields == [] then []
    else (if SameText(Latin1(fields[0].0), name) then ValuesIn(fields[0].1) else []) + Under(fields[1..], name)
  }

  lemma {:induction false} FieldIsRead(field: string, values: seq<string>, name: seq<Byte>)
    requires 58 !in Latin1(field)
    ensures Values(TextsOf((field, values)), name) == if SameText(Latin1(field), name) then ValuesIn(values) else []
    decreases |values|
  {
    hide Values, LineOf, SameText, SkipBlanks, Latin1;
    var lines := TextsOf((field, values));
    if values == [] {
      assert lines == [];
      NoneAsked(name);
    } else {
      var line := LineOf(Latin1(field), Latin1(values[0]));
      assert lines == [line] + TextsOf((field, values[1..]));
      ValuesAppend([line], TextsOf((field, values[1..])), name);
      ValuesOne(Latin1(field), Latin1(values[0]), name);
      FieldIsRead(field, values[1..], name);
      assert ValuesIn(values) == [SkipBlanks(Latin1(values[0]))] + ValuesIn(values[1..]);
    }
  }

  lemma ShownFirst(fields: Fields)
    requires fields != []
    ensures Shown(fields) == TextsOf(fields[0]) + Shown(fields[1..])
  {
    hide TextsOf;
    var parts := seq(|fields|, i requires 0 <= i < |fields| => TextsOf(fields[i]));
    assert parts[1..] == seq(|fields[1..]|, i requires 0 <= i < |fields[1..]| => TextsOf(fields[1..][i]));
  }

  /** A client that looks up a name finds all values the application has given under it. */
  lemma {:induction false} FieldsAreRead(fields: Fields, name: seq<Byte>)
    requires forall f <- fields :: 58 !in Latin1(f.0)
    ensures Values(Shown(fields), name) == Under(fields, name)
  {
    hide Values, Shown, TextsOf, Latin1, SameText, ValuesIn;
    if fields == [] {
      ShownNone();
      NoneAsked(name);
    } else {
      ShownFirst(fields);
      ValuesAppend(TextsOf(fields[0]), Shown(fields[1..]), name);
      FieldIsRead(fields[0].0, fields[0].1, name);
      FieldsAreRead(fields[1..], name);
    }
  }

  // ---------------------------------------------------------------------------------------
  // The fixed error answer
  // ---------------------------------------------------------------------------------------

  lemma {:induction false} Utf8Append(a: string, b: string)
    ensures Utf8Text(a + b) == Utf8Text(a) + Utf8Text(b)
  {
    hide Utf8;
    if a == "" {
      assert a + b == b;
    } else {
      assert (a + b)[0] == a[0] && (a + b)[1..] == a[1..] + b;
      Utf8Append(a[1..], b);
    }
  }

  lemma {:induction false} Utf8Ascii(s: string)
    requires forall i :: 0 <= i < |s| ==> s[i] as int < 0x80
    ensures Utf8Text(s) == Latin1(s)
  {
    hide Utf8;
    if s != "" {
      Utf8Ascii(s[1..]);
      assert Latin1(s) == [s[0] as int] + Latin1(s[1..]);
    }
  }

  /** A line of a text that is encoded as UTF-8. */
  lemma Utf8Line(name: string, value: string)
    requires forall i :: 0 <= i < |name| ==> name[i] as int < 0x80
    ensures Utf8Text(name + ": " + value + "\r\n") == LineOf(Latin1(name), Utf8Text(value)) + CRLF
  {
    hide Utf8Text;
    assert Latin1(": ") == [58, 32] && Latin1("\r\n") == CRLF;
    Utf8Append(name + ": " + value, "\r\n");
    Utf8Append(name + ": ", value);
    Utf8Append(name, ": ");
    Utf8Ascii(name);
    Utf8Ascii(": ");
    Utf8Ascii("\r\n");
  }

  /** Its status line is that of this header. */
  const ERROR_HEADER :=
    Header(500, Some("Internal Server Error"), "", false, 0, false, [])

  lemma ErrorStatusText()
    ensures Utf8Text("HTTP/1.1 500 Internal Server Error\r\n") == StatusText(ERROR_HEADER) + CRLF
  {
    hide Latin1, Utf8Text;
    var line := "HTTP/1.1 500 Internal Server Error\r\n";
    ErrorStatusLine();
    StatusLineText(ERROR_HEADER);
    Utf8Ascii(line);
  }

  lemma ErrorStatusLine()
    ensures StatusLine(ERROR_HEADER) == "HTTP/1.1 500 Internal Server Error\r\n"
  {
    hide StatusDigits;
    assert StatusDigits(500) == "500" by { FiveHundred(); }
    assert "HTTP/1.1 " + "500" == "HTTP/1.1 500" && " " + "Internal Server Error" == " Internal Server Error";
    assert "HTTP/1.1 500" + " Internal Server Error" == "HTTP/1.1 500 Internal Server Error";
  }

  lemma FiveHundred()
    ensures StatusDigits(500) == "500"
  {
  }

  function ServerOf(config: Config): string {
    if config.serverName.Some? then config.serverName.value else ""
  }

  function ErrorLines(config: Config, date: string): seq<seq<Byte>> {
    [LineOf(SERVER, Utf8Text(ServerOf(config))), LineOf(DATE, Utf8Text(date)), LineOf(CONTENT_LENGTH, [48])]
  }

  lemma ErrorTextParts(config: Config, date: string)
    ensures ErrorText(config, date) ==
            "HTTP/1.1 500 Internal Server Error\r\n" + ("Server" + ": " + ServerOf(config) + "\r\n")
            + ("Date" + ": " + date + "\r\n") + ("Content-Length" + ": " + "0" + "\r\n") + "\r\n"
  {
    assert "Server" + ": " == "Server: " && "Date" + ": " == "Date: ";
    assert "\r\n" + "Date: " == "\r\nDate: ";
    assert "Content-Length" + ": " + "0" + "\r\n" + "\r\n" == "Content-Length: 0\r\n\r\n";
    assert "\r\n" + "Content-Length: 0\r\n\r\n" == "\r\nContent-Length: 0\r\n\r\n";
    assert "HTTP/1.1 500 Internal Server Error\r\n" + "Server: " == "HTTP/1.1 500 Internal Server Error\r\nServer: ";
  }

  lemma ErrorNames()
    ensures Latin1("Server") == SERVER && Latin1("Date") == DATE && Latin1("Content-Length") == CONTENT_LENGTH
    ensures Utf8Text("\r\n") == CRLF && Utf8Text("0") == [48]
  {
    hide Utf8Text;
    Utf8Ascii("\r\n");
    Utf8Ascii("0");
  }

  lemma ErrorTextIs(config: Config, date: string)
    ensures Utf8Text(ErrorText(config, date)) ==
            Rendered([StatusText(ERROR_HEADER)] + ErrorLines(config, date)) + CRLF
  {
    hide Utf8Text, ErrorText, Latin1, LineOf, Rendered, StatusText;
    var first := "HTTP/1.1 500 Internal Server Error\r\n";
    var server, day := "Server" + ": " + ServerOf(config) + "\r\n", "Date" + ": " + date + "\r\n";
    var length := "Content-Length" + ": " + "0" + "\r\n";
    ErrorTextParts(config, date);
    Utf8Append(first + server + day + length, "\r\n");
    Utf8Append(first + server + day, length);
    Utf8Append(first + server, day);
    Utf8Append(first, server);
    ErrorStatusText();
    ErrorNames();
    Utf8HeaderLine("Server", ServerOf(config));
    Utf8HeaderLine("Date", date);
    Utf8HeaderLine("Content-Length", "0");
    FourLines(StatusText(ERROR_HEADER), LineOf(SERVER, Utf8Text(ServerOf(config))), LineOf(DATE, Utf8Text(date)),
              LineOf(CONTENT_LENGTH, [48]));
  }

  lemma Utf8HeaderLine(name: string, value: string)
    requires name in {"Server", "Date", "Content-Length"}
    ensures Utf8Text(name + ": " + value + "\r\n") == LineOf(Latin1(name), Utf8Text(value)) + CRLF
  {
    hide Utf8Text, Latin1, LineOf;
    Utf8Line(name, value);
  }

  lemma FourLines(a: seq<Byte>, b: seq<Byte>, c: seq<Byte>, d: seq<Byte>)
    ensures Rendered([a] + [b, c, d]) == (a + CRLF) + (b + CRLF) + (c + CRLF) + (d + CRLF)
  {
    hide Rendered;
    assert [a] + [b, c, d] == [a] + [b] + [c] + [d];
    RenderedAppend([a] + [b] + [c], [d]);
    RenderedAppend([a] + [b], [c]);
    RenderedAppend([a], [b]);
    RenderedOne(a);
    RenderedOne(b);
    RenderedOne(c);
    RenderedOne(d);
  }

  /** A client reads a complete answer without a body from it. */
  lemma ErrorIsRead(config: Config, date: string, rest: seq<Byte>)
    requires OneLine(Utf8Text(ServerOf(config))) && OneLine(Utf8Text(date))
    ensures var text := Utf8Text(ErrorText(config, date));
            var r := ReadReply(text + rest);
            && r.Some? && r.value.size == |text| && r.value.status == 500
            && LengthRead(r.value) == Some(0) && Values(r.value.lines, TRANSFER_ENCODING) == []
            && r.value.lines == ErrorLines(config, date)
  {
    hide Utf8Text, ErrorText, Rendered, ReadLines, ReadReply, NumberOf, IsNumber, LineOf, Values, SameText, StatusText;
    var lines := ErrorLines(config, date);
    ErrorTextIs(config, date);
    ErrorLinesAreText(config, date);
    LinesAreRead([StatusText(ERROR_HEADER)] + lines, rest);
    ReplyFrom(ERROR_HEADER, Utf8Text(ErrorText(config, date)) + rest, lines, |Utf8Text(ErrorText(config, date))|);
    ErrorValues(config, date, CONTENT_LENGTH);
    ErrorValues(config, date, TRANSFER_ENCODING);
    OwnNamesAre();
    OneDigit();
  }

  lemma OneDigit()
    ensures IsNumber([48]) && NumberOf([48]) == 0
  {
    assert [48][..0] == [];
  }

  lemma ErrorLinesAreText(config: Config, date: string)
    requires OneLine(Utf8Text(ServerOf(config))) && OneLine(Utf8Text(date))
    ensures TextLines([StatusText(ERROR_HEADER)] + ErrorLines(config, date))
  {
    hide Utf8Text, Latin1, StatusDigits;
    StatusIsRead(500);
    assert OneLine(Latin1("Internal Server Error")) by { ReasonIsOneLine(); }
    forall line <- ErrorLines(config, date)
      ensures line != [] && OneLine(line)
    {
    }
  }

  lemma ReasonIsOneLine()
    ensures OneLine(Latin1("Internal Server Error"))
  {
  }

  lemma ErrorValues(config: Config, date: string, name: seq<Byte>)
    requires name in {CONTENT_LENGTH, TRANSFER_ENCODING}
    ensures Values(ErrorLines(config, date), name) == if name == CONTENT_LENGTH then [[48]] else []
  {
    hide Values, LineOf, SameText, Utf8Text;
    OwnNamesAre();
    OwnNamesDiffer(name);
    var s, d := Utf8Text(ServerOf(config)), Utf8Text(date);
    assert ErrorLines(config, date) == [LineOf(SERVER, s)] + [LineOf(DATE, d)] + [LineOf(CONTENT_LENGTH, [48])];
    ValuesAppend([LineOf(SERVER, s)] + [LineOf(DATE, d)], [LineOf(CONTENT_LENGTH, [48])], name);
    ValuesAppend([LineOf(SERVER, s)], [LineOf(DATE, d)], name);
    ValuesOne(SERVER, s, name);
    ValuesOne(DATE, d, name);
    ValuesOne(CONTENT_LENGTH, [48], name);
    assert SkipBlanks([48]) == [48];
  }
}
