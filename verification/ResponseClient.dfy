/**
 * What the client finds on the wire, over every run of writes, flushes and header changes and every ending:
 * the header block read line by line, and the body as it delimits it
 * (Nowin/Transport2HttpHandler.cs:576-664, 712-757, 779-797, 830-885, 1414-1450, Nowin/OwinHandler.cs:248-306),
 * against sections 3.3.2, 3.3.3 and 4.1 of RFC 7230.
 */
module ResponseClient {
  import opened Bytes
  import opened Chunked
  import opened ChunkedBody
  import opened ChunkEncoder
  import opened ResponseSpec
  import opened ResponseTheorems
  import opened ResponseReuse
  import opened ResponseWire

  // ---------------------------------------------------------------------------------------
  // Texts of the application
  // ---------------------------------------------------------------------------------------

  /**
   * Texts that end no line, and field names of ASCII characters other than a colon. Connection and
   * Content-Length are not among the fields: they are in the wish by themselves.
   */
  predicate CleanWish(w: Wish) {
    && (w.reason.Some? ==> OneLine(Latin1(w.reason.value)))
    && OneLine(Latin1(w.date)) && OneLine(Utf8Text(w.date))
    && forall f <- w.fields :: CleanField(f)
  }

  predicate CleanField(f: (string, seq<string>)) {
    && OneLineField(f)
    && (forall i :: 0 <= i < |f.0| ==> f.0[i] as int < 0x80 && f.0[i] != ':')
    && !SameName(f.0, "Connection") && !SameName(f.0, "Content-Length")
  }

  predicate CleanServer(config: Config) {
    OneLine(Utf8Text(ServerOf(config))) && OneLine(Latin1(ServerOf(config)))
  }

  predicate CleanRun(r: Response, ops: seq<Op>, end: Ending) {
    && CleanServer(r.config) && CleanWish(r.wish) && CleanOps(ops)
    && (end.late.Some? ==> CleanWish(end.late.value))
  }

  predicate CleanOps(ops: seq<Op>) {
    forall op <- ops :: op.AskOp? ==> CleanWish(op.w)
  }

  /** Header names of ASCII text are the same on the wire and in the dictionary. */
  lemma SameOnTheWire(a: string, b: string)
    requires forall i :: 0 <= i < |a| ==> a[i] as int < 0x80
    requires forall i :: 0 <= i < |b| ==> b[i] as int < 0x80
    ensures SameText(Latin1(a), Latin1(b)) <==> SameName(a, b)
  {
    if |a| == |b| {
      forall i | 0 <= i < |a|
        ensures SameLetter(Latin1(a)[i], Latin1(b)[i]) <==> SameChar(a[i], b[i])
      {
      }
    }
  }

  lemma HeaderNames()
    ensures Latin1("Connection") == CONNECTION && Latin1("Content-Length") == CONTENT_LENGTH
    ensures Latin1("Transfer-Encoding") == TRANSFER_ENCODING
    ensures forall name <- ["Connection", "Content-Length", "Transfer-Encoding"], i :: 0 <= i < |name| ==>
              name[i] as int < 0x80
  {
  }

  /** A field that is passed on does not look like one of the server's. */
  lemma CleanFieldIsSeparate(f: (string, seq<string>))
    requires CleanField(f)
    ensures 58 !in Latin1(f.0)
    ensures !SameText(Latin1(f.0), CONTENT_LENGTH) && !SameText(Latin1(f.0), CONNECTION)
    ensures SameText(Latin1(f.0), TRANSFER_ENCODING) <==> SameIgnoringCase(f.0, "Transfer-Encoding")
  {
    hide SameText, SameName, OneLineField, SameIgnoringCase;
    HeaderNames();
    SameOnTheWire(f.0, "Connection");
    SameOnTheWire(f.0, "Content-Length");
    SameOnTheWire(f.0, "Transfer-Encoding");
    SameNameIs(f.0, "Transfer-Encoding");
  }

  lemma LinesOfField(f: (string, seq<string>))
    requires 58 !in Latin1(f.0)
    ensures forall line <- TextsOf(f) :: NameOf(line) == Latin1(f.0)
  {
    hide LineOf, Latin1, NameOf;
    forall i | 0 <= i < |f.1|
      ensures NameOf(TextsOf(f)[i]) == Latin1(f.0)
    {
      NamedLine(Latin1(f.0), Latin1(f.1[i]));
    }
  }

  lemma {:induction false} PassedIsClean(fields: Fields)
    requires forall f <- fields :: CleanField(f)
    ensures OneLineFields(Passed(fields)) && Separate(Passed(fields))
    ensures forall f <- Passed(fields) :: CleanField(f) && 58 !in Latin1(f.0)
  {
    hide CleanField, OneLineField, Shown, SameText, Latin1, TextsOf, NameOf, SameIgnoringCase;
    if fields == [] {
      ShownNone();
    } else {
      var n := |fields| - 1;
      PassedIsClean(fields[..n]);
      CleanFieldIsSeparate(fields[n]);
      CleanMeans(fields[n]);
      if SameIgnoringCase(fields[n].0, "Transfer-Encoding") {
        assert Passed(fields) == Passed(fields[..n]);
      } else {
        assert Passed(fields) == Passed(fields[..n]) + [fields[n]];
        OneMoreClean(Passed(fields[..n]), fields[n]);
      }
    }
  }

  lemma OneMoreClean(fields: Fields, f: (string, seq<string>))
    requires OneLineFields(fields) && Separate(fields) && OneLineField(f) && 58 !in Latin1(f.0)
    requires !SameText(Latin1(f.0), CONTENT_LENGTH) && !SameText(Latin1(f.0), CONNECTION)
    requires !SameText(Latin1(f.0), TRANSFER_ENCODING)
    ensures OneLineFields(fields + [f]) && Separate(fields + [f])
  {
    hide OneLineField, Shown, SameText, Latin1, TextsOf, NameOf;
    assert (fields + [f])[..|fields|] == fields;
    ShownMore(fields + [f]);
    LinesOfField(f);
  }

  lemma CleanMeans(f: (string, seq<string>))
    requires CleanField(f)
    ensures OneLineField(f)
  {
  }

  /** The header block decided for such a wish can be read. */
  lemma DecidedIsClean(config: Config, w: Wish, h: Header, position: nat, finished: bool)
    requires CleanServer(config) && CleanWish(w)
    ensures var d := Decide(config, w, h, position, finished);
            SingleLines(config, d) && Separate(d.shown) && forall f <- d.shown :: 58 !in Latin1(f.0)
  {
    hide OneLine, Latin1, Utf8Text, Separate, OneLineFields, CleanField, Passed;
    PassedIsClean(w.fields);
    NothingShown();
  }

  lemma NothingShown()
    ensures Separate([]) && OneLineFields([])
  {
    ShownNone();
  }

  // ---------------------------------------------------------------------------------------
  // They stay clean
  // ---------------------------------------------------------------------------------------

  predicate Readable(r: Response) {
    SingleLines(r.config, r.header) && Separate(r.header.shown) && forall f <- r.header.shown :: 58 !in Latin1(f.0)
  }

  predicate Clean(r: Response) {
    CleanServer(r.config) && CleanWish(r.wish) && (r.headersSent ==> Readable(r))
  }

  lemma ConsumedIsClean(w: Wish)
    requires CleanWish(w)
    ensures CleanWish(Consumed(w))
  {
    hide OneLine, Latin1, Utf8Text, CleanField;
  }

  lemma SendIsClean(r: Response, block: seq<Byte>, own: bool)
    requires Clean(r)
    ensures Clean(Send(r, block, own).0)
  {
    hide HeaderBlock, Decide, Consumed, BodyBytes, CleanWish, CleanServer, SingleLines, Separate, Latin1;
    ConsumedIsClean(r.wish);
    DecidedIsClean(r.config, r.wish, r.header, r.position, false);
  }

  lemma CleanStays(r: Response, q: Response)
    requires Clean(r)
    requires q.config == r.config && q.wish == r.wish && q.header == r.header && q.headersSent == r.headersSent
    ensures Clean(q)
  {
  }

  lemma {:induction false} OverflowIsClean(r: Response, data: seq<Byte>)
    requires ValidConfig(r.config) && |r.local| <= r.config.size && data != [] && Clean(r)
    ensures Clean(Overflow(r, data).0)
    decreases |data|
  {
    hide Send, Clean;
    CleanStays(r, r.(local := []));
    SendIsClean(r.(local := []), r.local, true);
    var (r1, o) := FlushIfFull(r);
    assert Clean(r1);
    CleanStays(r1, r1.(position := r1.position + |data|));
    SendIsClean(r1.(position := r1.position + |data|), data, false);
    if o == Sent && !(|r.local| == r.config.size && |data| >= r.config.size && CanUseDirectWrite(r1)) {
      var tillEnd := ResponseSpec.Min(r1.config.size - |r1.local|, |data|);
      CleanStays(r1, Buffered(r1, data[..tillEnd]));
      if tillEnd < |data| {
        OverflowIsClean(Buffered(r1, data[..tillEnd]), data[tillEnd..]);
      }
    }
  }

  lemma ApplyIsClean(r: Response, op: Op)
    requires ValidConfig(r.config) && |r.local| <= r.config.size && Clean(r)
    requires op.AskOp? ==> CleanWish(op.w)
    ensures Clean(Apply(r, op).0)
  {
    hide Send, Overflow, Clean, CleanWish;
    match op {
      case WriteOp(data) =>
        if |data| > r.config.size - |r.local| {
          OverflowIsClean(r, data);
        } else {
          CleanStays(r, Buffered(r, data));
        }
      case FlushOp =>
        CleanStays(r, r.(local := []));
        SendIsClean(r.(local := []), r.local, true);
      case AskOp(w) =>
        AskedIsClean(r, w);
    }
  }

  lemma AskedIsClean(r: Response, w: Wish)
    requires Clean(r) && CleanWish(w)
    ensures Clean(r.(wish := w))
  {
    hide SingleLines, Separate, Latin1, CleanWish;
  }

  lemma {:induction false} RunIsClean(r: Response, ops: seq<Op>)
    requires ValidConfig(r.config) && |r.local| <= r.config.size && Clean(r) && CleanOps(ops)
    ensures Clean(Run(r, ops))
    decreases |ops|
  {
    hide Apply, Clean, CleanWish;
    if ops != [] {
      ApplyIsClean(r, ops[0]);
      RunIsClean(Apply(r, ops[0]).0, ops[1..]);
    }
  }

  // ---------------------------------------------------------------------------------------
  // A reused connection
  // ---------------------------------------------------------------------------------------

  /**
   * The client finds a status line, header lines and a blank line, and behind them what these announce: no
   * body under 204 and 304; a complete chunked body; or as many bytes as Content-Length says. The body is
   * what has been handed over.
   */
  predicate WellFramed(q: Response) {
    match ReadReply(q.trace.wire)
    case None => false
    case Some(reply) =>
      var body := q.trace.wire[reply.size..];
      if Bodiless(reply.status) then body == []
      else if ChunkedRead(reply) then Decode(START, body) == Decoded(ENDED, Concat(q.trace.blocks), [])
      else LengthRead(reply) == Some(|body|) && body == Concat(q.trace.blocks)
  }

  /** The header block can be read behind what has been decided. */
  lemma HeadIsRead(q: Response)
    requires Headed(q) && Readable(q)
    ensures var r := ReadReply(q.trace.wire);
            && r.Some? && r.value.size == |q.head| && Tells(r.value, q.config, q.header)
            && q.trace.wire[r.value.size..] == Body(q)
  {
    hide HeaderBlock, SingleLines, Separate, Tells;
    var rest := q.trace.wire[|q.head|..];
    assert q.trace.wire == q.head + rest;
    HeaderBlockIsRead(q.config, q.header, rest);
  }

  lemma WireFraming(q: Response)
    requires Headed(q) && Readable(q) && (q.header.contentLength == ULONG_MAX ==> !q.config.isHttp10)
    ensures WellFramed(q) <==> FramedAsDecided(q)
  {
    hide Headed, Readable, Decode, Concat, Values, LengthRead;
    HeadIsRead(q);
    TellsFraming(ReadReply(q.trace.wire).value, q.config, q.header);
  }

  lemma TellsFraming(reply: Reply, config: Config, h: Header)
    requires Tells(reply, config, h)
    ensures reply.status == h.statusCode
    ensures LengthRead(reply) == (if h.contentLength == ULONG_MAX then None else Some(h.contentLength))
    ensures ChunkedRead(reply) <==> h.contentLength == ULONG_MAX && !config.isHttp10
  {
    hide Values, LengthRead;
  }

  /** A header block that keeps the connection open without a length is one of HTTP/1.1. */
  lemma KeptWithoutLength(config: Config, w: Wish, h: Header, position: nat, finished: bool)
    ensures var d := Decide(config, w, h, position, finished);
            d.keepAlive && d.contentLength == ULONG_MAX ==> !config.isHttp10
  {
  }

  /** What a reused connection carries can be read. */
  lemma ReusedIsReadable(r: Response, ops: seq<Op>, end: Ending)
    requires Fresh(r) && !r.config.isHead && CleanRun(r, ops, end)
    requires Run(r, ops).position < ULONG_MAX && Reused(Conclude(Run(r, ops), end))
    ensures var q := Conclude(Run(r, ops), end);
            Headed(q) && Readable(q) && (q.header.contentLength == ULONG_MAX ==> !q.config.isHttp10)
  {
    hide Run, Opening, Inv, Finish, Conclude, Last, EverTurnsChunked, HeaderBlock, Readable, CleanWish, Decide;
    hide CleanServer;
    FreshIsInv(r);
    RunDecides(r, ops);
    RunIsClean(r, ops);
    var e := Run(r, ops);
    ConcludeOrAbort(e, end);
    LastKeeps(e, end);
    LastIsClean(e, end);
    var l := Last(e, end);
    if e.headersSent {
      FinishLate(l);
      FinishKeepsHeader(l);
      var p := Opening(r, ops).value;
      KeptWithoutLength(p.config, p.wish, p.header, p.position, false);
      ReadableMeans(l, Finish(l));
    } else {
      FinishEarly(l);
      FinishKeepsHeader(l);
      DecidedIsClean(l.config, l.wish, l.header, l.position, true);
      KeptWithoutLength(l.config, l.wish, l.header, l.position, true);
      ReadableMeans(l.(header := Decide(l.config, l.wish, l.header, l.position, true)), Finish(l));
    }
  }

  lemma ReadableMeans(a: Response, q: Response)
    requires q.config == a.config && q.header == a.header
    ensures Readable(a) <==> Readable(q)
    ensures Readable(a) <==> SingleLines(a.config, a.header) && Separate(a.header.shown)
                             && forall f <- a.header.shown :: 58 !in Latin1(f.0)
  {
  }

  lemma LastIsClean(e: Response, end: Ending)
    requires Clean(e) && (end.late.Some? ==> CleanWish(end.late.value))
    ensures Clean(Last(e, end))
  {
    hide SingleLines, Separate, Latin1, Utf8Text, OneLine, CleanField, CleanServer;
  }

  lemma FinishKeepsHeader(l: Response)
    requires Reused(Finish(l))
    ensures var q := Finish(l);
            && q.config == l.config && q.header.keepAlive
            && q.header == if l.headersSent then l.header else Decide(l.config, l.wish, l.header, l.position, true)
  {
    hide HeaderBlock, Decide;
  }

  /**
   * A reused connection carries a well-framed response, with these exceptions. Under status 204 or 304
   * something follows the header block if chunked coding is on or any byte is kept. Otherwise a
   * Content-Length makes two cases visible: a refused flush has dropped bytes, or a refused flush had
   * turned chunked coding on before a later one sent the header block.
   */
  lemma ReuseIsFramed(r: Response, ops: seq<Op>, end: Ending)
    requires Fresh(r) && !r.config.isHead && CleanRun(r, ops, end)
    requires Run(r, ops).position < ULONG_MAX && Reused(Conclude(Run(r, ops), end))
    ensures var q := Conclude(Run(r, ops), end);
            WellFramed(q) <==>
            if Bodiless(q.header.statusCode) then !SendsChunked(r, ops) && Kept(r, ops, []) == []
            else
              || q.header.contentLength == ULONG_MAX
              || (!EverDrops(r, ops) && !(EverTurnsChunked(r, ops) && Opening(r, ops).Some?))
    ensures Concat(Conclude(Run(r, ops), end).trace.blocks) == Kept(r, ops, [])
    ensures AllSent(r, ops) ==> Concat(Conclude(Run(r, ops), end).trace.blocks) == Written(ops)
  {
    hide Run, Conclude, WellFramed, FramedAsDecided, Kept, EverDrops, EverTurnsChunked, Opening, AllSent, Headed;
    hide CleanRun, Readable, Concat;
    ReuseIsFramedAsDecided(r, ops, end);
    ReusedIsReadable(r, ops, end);
    WireFraming(Conclude(Run(r, ops), end));
  }

  // ---------------------------------------------------------------------------------------
  // Every answer
  // ---------------------------------------------------------------------------------------

  /** A reason to answer with 500 instead: headers or a status no answer can have, or a length that turned out wrong. */
  predicate Faulty(p: Response, finished: bool) {
    || Malformed(p.wish) || p.wish.statusCode < 200 || p.wish.statusCode > 999
    || (finished && Announced(p) != ULONG_MAX && Announced(p) != p.position)
  }

  /** The connection is kept behind the header block decided now. */
  predicate KeptAt(p: Response, finished: bool) {
    KeptOpen(p) && if finished then Announced(p) == ULONG_MAX || Announced(p) == p.position
                   else !(Announced(p) == ULONG_MAX && p.config.isHttp10)
  }

  /** The length as far as it is known: when the response is finished, the number of bytes written. */
  function LengthAt(p: Response, finished: bool): nat {
    if finished then p.position else Announced(p)
  }

  /** The fields that are passed on. */
  function FieldsAt(p: Response): Fields {
    if Malformed(p.wish) then [] else p.wish.fields
  }

  /** `reply` says what the application has asked for by now. */
  ghost predicate TellsAsAsked(reply: Reply, p: Response, finished: bool) {
    && reply.status == (if Faulty(p, finished) then 500 else p.wish.statusCode)
    && reply.reason == (if p.wish.reason.Some? then Some(Latin1(p.wish.reason.value)) else None)
    && LengthRead(reply)
       == (if LengthAt(p, finished) == ULONG_MAX then None else Some(LengthAt(p, finished)))
    && (ChunkedRead(reply) <==> LengthAt(p, finished) == ULONG_MAX && !p.config.isHttp10)
    && Values(reply.lines, CONNECTION)
       == (if !KeptAt(p, finished) then [CLOSE] else if p.config.isHttp10 then [KEEP_ALIVE] else [])
    && Values(reply.lines, SERVER)
       == (if p.config.serverName.Some? && !Names(FieldsAt(p), "Server")
           then [SkipBlanks(Latin1(p.config.serverName.value))] else []) + Under(FieldsAt(p), SERVER)
    && Values(reply.lines, DATE)
       == (if !Names(FieldsAt(p), "Date") then [SkipBlanks(Latin1(p.wish.date))] else []) + Under(FieldsAt(p), DATE)
    && forall name :: !OwnName(name) ==> Values(reply.lines, name) == Under(FieldsAt(p), name)
  }

  lemma DecidesAsAsked(p: Response, finished: bool)
    requires finished ==> !p.config.isHead && p.position < ULONG_MAX
    ensures var d := Decide(p.config, p.wish, p.header, p.position, finished);
            && d.statusCode == (if Faulty(p, finished) then 500 else p.wish.statusCode)
            && d.reason == p.wish.reason && d.date == p.wish.date
            && d.contentLength == LengthAt(p, finished)
            && (d.keepAlive <==> KeptAt(p, finished))
            && d.shown == Passed(FieldsAt(p))
  {
    hide Passed;
    NothingPassed();
  }

  lemma NothingPassed()
    ensures Passed([]) == []
  {
  }

  lemma SameTextTwice(a: seq<Byte>, b: seq<Byte>, c: seq<Byte>)
    requires SameText(a, b) && SameText(a, c)
    ensures SameText(b, c)
  {
  }

  lemma {:induction false} UnderAppend(a: Fields, b: Fields, name: seq<Byte>)
    ensures Under(a + b, name) == Under(a, name) + Under(b, name)
  {
    hide SameText, Latin1, ValuesIn;
    if a == [] {
      assert a + b == b;
    } else {
      assert (a + b)[0] == a[0] && (a + b)[1..] == a[1..] + b;
      UnderAppend(a[1..], b, name);
    }
  }

  lemma UnderOne(f: (string, seq<string>), name: seq<Byte>)
    ensures Under([f], name) == if SameText(Latin1(f.0), name) then ValuesIn(f.1) else []
  {
    hide SameText, Latin1, ValuesIn;
    assert [f][1..] == [] && Under([], name) == [];
  }

  /** Nothing but Transfer-Encoding is held back. */
  lemma {:induction false} PassedUnder(fields: Fields, name: seq<Byte>)
    requires !SameText(TRANSFER_ENCODING, name)
    requires forall f <- fields :: CleanField(f)
    ensures Under(Passed(fields), name) == Under(fields, name)
  {
    hide Under, CleanField, SameText, Latin1, SameIgnoringCase, ValuesIn;
    if fields != [] {
      var n := |fields| - 1;
      var last := fields[n];
      PassedUnder(fields[..n], name);
      assert fields == fields[..n] + [last];
      UnderAppend(fields[..n], [last], name);
      UnderOne(last, name);
      CleanFieldIsSeparate(last);
      if SameIgnoringCase(last.0, "Transfer-Encoding") {
        assert Passed(fields) == Passed(fields[..n]);
        if SameText(Latin1(last.0), name) {
          SameTextTwice(Latin1(last.0), TRANSFER_ENCODING, name);
        }
      } else {
        UnderAppend(Passed(fields[..n]), [last], name);
      }
    }
  }

  lemma {:induction false} PassedNames(fields: Fields, name: string)
    requires |name| != 17
    ensures Names(Passed(fields), name) <==> Names(fields, name)
  {
    hide SameName, SameIgnoringCase;
    if fields != [] {
      var n := |fields| - 1;
      var last := fields[n];
      PassedNames(fields[..n], name);
      SameNameIs(last.0, "Transfer-Encoding");
      SameNameLength(last.0, name);
      SameNameLength(last.0, "Transfer-Encoding");
      NamesMore(fields[..n], last, name);
      assert fields[..n] + [last] == fields;
      if SameIgnoringCase(last.0, "Transfer-Encoding") {
        assert Passed(fields) == Passed(fields[..n]);
      } else {
        NamesMore(Passed(fields[..n]), last, name);
      }
    }
  }

  lemma SameNameLength(a: string, b: string)
    ensures SameName(a, b) ==> |a| == |b|
  {
  }

  lemma NamesMore(fields: Fields, f: (string, seq<string>), name: string)
    ensures Names(fields + [f], name) <==> Names(fields, name) || SameName(f.0, name)
  {
    hide SameName;
    var all := fields + [f];
    assert all[|fields|] == f;
    assert forall i :: 0 <= i < |fields| ==> all[i] == fields[i];
  }

  /** What is decided and what is asked for are told the same way. */
  lemma ToldAsAsked(reply: Reply, p: Response, finished: bool, d: Header)
    requires (finished ==> !p.config.isHead && p.position < ULONG_MAX) && CleanWish(p.wish)
    requires d == Decide(p.config, p.wish, p.header, p.position, finished)
    requires Tells(reply, p.config, d) && forall f <- d.shown :: 58 !in Latin1(f.0)
    ensures TellsAsAsked(reply, p, finished)
  {
    hide Decide, Passed, Values, Under, SameText, Latin1, Names, LengthRead, SkipBlanks, Shown, OwnName, Faulty, KeptAt;
    hide CleanField, LengthAt, FieldsAt;
    DecidesAsAsked(p, finished);
    FieldsAtAreClean(p);
    PassedNames(FieldsAt(p), "Server");
    PassedNames(FieldsAt(p), "Date");
    FieldsTold(d.shown, FieldsAt(p), SERVER);
    FieldsTold(d.shown, FieldsAt(p), DATE);
    forall name | !OwnName(name)
      ensures Values(reply.lines, name) == Under(FieldsAt(p), name)
    {
      FieldsTold(d.shown, FieldsAt(p), name);
    }
  }

  lemma FieldsAtAreClean(p: Response)
    requires CleanWish(p.wish)
    ensures forall f <- FieldsAt(p) :: CleanField(f)
  {
    hide CleanField, OneLine, Latin1, Utf8Text;
  }

  lemma FieldsTold(shown: Fields, fields: Fields, name: seq<Byte>)
    requires shown == Passed(fields) && forall f <- shown :: 58 !in Latin1(f.0)
    requires forall f <- fields :: CleanField(f)
    requires name in {SERVER, DATE} || !OwnName(name)
    ensures Values(Shown(shown), name) == Under(fields, name)
  {
    hide Passed, Values, Under, SameText, Latin1, Shown, CleanField;
    NotTransferEncoding(name);
    FieldsAreRead(shown, name);
    PassedUnder(fields, name);
  }

  lemma NotTransferEncoding(name: seq<Byte>)
    requires name in {SERVER, DATE} || !OwnName(name)
    ensures !SameText(TRANSFER_ENCODING, name)
  {
    hide SameText;
    if name in {SERVER, DATE} {
      OwnNamesAre();
      OwnNamesDiffer(name);
    }
  }

  /** A finished response whose header block was out before. */
  lemma FinishBehindHead(l: Response)
    requires Inv(l) && l.headersSent && !Finish(l).closed
    ensures var q := Finish(l); Headed(q) && q.header == l.header && q.config == l.config
  {
    hide HeaderBlock, FinishFirst, EncodeChunks, EncodeChunk, Concat, Sendable;
    var q := Finish(l);
    assert l.head <= l.trace.wire;
    assert q.trace.wire == l.trace.wire + q.trace.wire[|l.trace.wire|..];
  }

  lemma FinishWithHead(l: Response)
    requires Inv(l) && !l.headersSent
    ensures var q := Finish(l);
            && q.config == l.config && !q.closed
            && if FitsAtTheEnd(l)
               then Headed(q) && q.header == Decide(l.config, l.wish, l.header, l.position, true)
               else q.trace.wire == Utf8Text(ErrorText(l.config, l.wish.date)) && !Reused(q)
  {
    hide HeaderBlock, Decide;
  }

  /** The fixed answer, and nothing behind it. */
  predicate ErrorAnswer(reply: Reply, wire: seq<Byte>) {
    reply.status == 500 && LengthRead(reply) == Some(0) && !ChunkedRead(reply) && reply.size == |wire|
  }

  /**
   * Whatever the application does, unless the server closes the connection instead of answering, the
   * client reads an answer: the one the application asked for at the first flush that was not refused,
   * or else at the end; or the fixed one if the task has failed, the request was cancelled or the header
   * block does not fit.
   */
  lemma ClientReads(r: Response, ops: seq<Op>, end: Ending)
    requires Fresh(r) && !r.config.isHead && CleanRun(r, ops, end)
    requires Run(r, ops).position < ULONG_MAX && !Conclude(Run(r, ops), end).closed
    ensures var e, q := Run(r, ops), Conclude(Run(r, ops), end);
            var reply := ReadReply(q.trace.wire);
            && reply.Some?
            && match Opening(r, ops)
               case Some(p) => TellsAsAsked(reply.value, p, false)
               case None =>
                 var l := AtTheEnd(e, end);
                 if !Aborts(e, end) && FitsAtTheEnd(l) then TellsAsAsked(reply.value, l, true)
                 else ErrorAnswer(reply.value, q.trace.wire) && !Reused(q)
  {
    hide Run, Opening, Inv, Finish, Conclude, Last, EverTurnsChunked, Readable, CleanWish, Decide, Aborts;
    hide CleanServer, ReadReply, TellsAsAsked, Tells, Headed, ErrorAnswer;
    FreshIsInv(r);
    RunDecides(r, ops);
    RunIsClean(r, ops);
    var e := Run(r, ops);
    ConcludeOrAbort(e, end);
    LastKeeps(e, end);
    LastIsClean(e, end);
    var l := Last(e, end);
    if e.headersSent {
      var p := Opening(r, ops).value;
      OpeningIsClean(r, ops);
      FinishBehindHead(l);
      ReadAt(p, false, Finish(l));
    } else if !Aborts(e, end) {
      LastIsAtTheEnd(e, end);
      FinishWithHead(l);
      if FitsAtTheEnd(l) {
        ReadAt(l, true, Finish(l));
      } else {
        ErrorIsAnswer(l.config, l.wish);
      }
    } else {
      NothingSent(e);
      ErrorIsAnswer(e.config, e.wish);
    }
  }

  lemma NothingSent(e: Response)
    requires Inv(e) && !e.headersSent
    ensures e.trace.wire == [] && forall s :: e.trace.wire + s == s
  {
  }

  lemma ErrorIsAnswer(config: Config, w: Wish)
    requires CleanServer(config) && CleanWish(w)
    ensures var text := Utf8Text(ErrorText(config, w.date));
            ReadReply(text).Some? && ErrorAnswer(ReadReply(text).value, text)
  {
    hide ErrorText, Utf8Text, ReadReply, LengthRead, Values, OneLine, CleanField;
    ErrorIsRead(config, w.date, []);
    assert Utf8Text(ErrorText(config, w.date)) + [] == Utf8Text(ErrorText(config, w.date));
  }

  /** The header block decided in state `p` stands on the wire of `q`. */
  lemma ReadAt(p: Response, finished: bool, q: Response)
    requires finished ==> !p.config.isHead && p.position < ULONG_MAX
    requires CleanServer(p.config) && CleanWish(p.wish)
    requires Headed(q) && q.config == p.config
    requires q.header == Decide(p.config, p.wish, p.header, p.position, finished)
    ensures ReadReply(q.trace.wire).Some? && TellsAsAsked(ReadReply(q.trace.wire).value, p, finished)
  {
    hide Decide, Headed, ReadReply, TellsAsAsked, Tells, SingleLines, Separate, CleanWish, CleanServer;
    DecidedIsClean(p.config, p.wish, p.header, p.position, finished);
    HeadIsRead(q);
    ToldAsAsked(ReadReply(q.trace.wire).value, p, finished, q.header);
  }

  lemma {:induction false} OpeningIsClean(r: Response, ops: seq<Op>)
    requires ValidConfig(r.config) && |r.local| <= r.config.size && !r.headersSent && Clean(r) && CleanOps(ops)
    ensures var p := Opening(r, ops); p.Some? ==> CleanServer(p.value.config) && CleanWish(p.value.wish)
    decreases |ops|
  {
    hide Apply, Clean, CleanWish, CleanServer, Refuses;
    CleanMeansWish(r);
    if ops != [] {
      var q := Apply(r, ops[0]).0;
      ApplyIsClean(r, ops[0]);
      if !q.headersSent {
        OpeningIsClean(q, ops[1..]);
      }
    }
  }

  lemma CleanMeansWish(r: Response)
    requires Clean(r)
    ensures CleanServer(r.config) && CleanWish(r.wish)
  {
  }

  /** An application that asks to close gets the connection closed, whatever else it does. */
  lemma CloseIsHonoured(r: Response, ops: seq<Op>, end: Ending)
    requires Fresh(r) && !r.config.isHead && Run(r, ops).position < ULONG_MAX
    requires match Opening(r, ops)
             case Some(p) => p.wish.connection == Close
             case None => AtTheEnd(Run(r, ops), end).wish.connection == Close
    ensures !Reused(Conclude(Run(r, ops), end))
  {
    hide Run, Opening, Conclude, Last, Aborts, FitsAtTheEnd;
    ReusedExactly(r, ops, end);
  }

  // ---------------------------------------------------------------------------------------
  // Concrete runs
  // ---------------------------------------------------------------------------------------

  function Asks(length: LengthHeader, reason: seq<char>): Wish {
    Wish(200, Some(reason), NoConnection, length, [], "")
  }

  /** Nothing but a status. */
  function AsksStatus(status: int): Wish {
    Wish(status, None, NoConnection, NoLength, [], "")
  }

  function NewResponse(w: Wish): (r: Response)
    ensures Fresh(r)
  {
    Response(Config(1024, false, false, None), w, Header(200, None, "", true, ULONG_MAX, false, []), [], false, [],
             0, false, false, Trace([], [], 0))
  }

  /** The header block of such a response, which a long reason makes too long. */
  lemma BlockOf(r: Response, d: Header)
    requires r.config == Config(1024, false, false, None) && d.statusCode == 200 && d.reason.Some?
    requires d.shown == [] && d.date == "" && d.keepAlive
    ensures |HeaderBlock(r.config, d)| ==
            25 + |d.reason.value| +
            if d.contentLength == ULONG_MAX then 28 else 18 + |Decimal(d.contentLength)|
  {
    assert |StatusLine(d)| == 15 + |d.reason.value|;
    assert !Overwritten(d.shown, "Date") && ServerLines(r.config, d) == "Date: \r\n";
    assert FieldLines(d.shown) == "" && ConnectionLines(r.config, d) == "";
    assert |HeaderText(r.config, d)| == |StatusLine(d)| + |FramingLines(r.config, d)| + 10;
  }

  // A flush whose header block is too long throws; an application that swallows the exception and
  // finishes the response can still get its (now shorter) header block out, with a length that
  // counts the bytes dropped by the flush.
  lemma FailedFlushThenReuse(data: seq<Byte>) returns (r: Response, ops: seq<Op>)
    requires |data| == 3
    ensures Fresh(r) && !r.config.isHead && ops == [WriteOp(data), FlushOp]
    ensures var q := Conclude(Run(r, ops), Plainly(Completes, false));
            Reused(q) && q.header.contentLength == 3 && Body(q) == []
  {
    hide HeaderBlock;
    r := NewResponse(Asks(NoLength, seq(980, _ => 'x')));
    ops := [WriteOp(data), FlushOp];
    var r1 := r.(local := data, position := 3);
    BlockOf(r, Upcoming(r1));
    assert Write(r, data).0 == r1 by { assert [] + data == data; }
    RefusedFlush(r1);
    var r2 := Flush(r1).0;
    RunTwo(r, WriteOp(data), FlushOp);
    var d := Decide(r2.config, r2.wish, r2.header, 3, true);
    BlockOf(r2, d);
    assert Decimal(3) == "3";
  }

  lemma RunTwo(r: Response, a: Op, b: Op)
    requires ValidConfig(r.config) && |r.local| <= r.config.size
    ensures Run(r, [a, b]) == Apply(Apply(r, a).0, b).0
  {
    hide Apply;
    assert [a, b][1..] == [b] && [b][1..] == [];
    assert Run(Apply(r, a).0, [b]) == Run(Apply(Apply(r, a).0, b).0, []);
  }

  // An empty flush is refused after it has decided on chunked coding. The application swallows the
  // exception, shortens its headers and declares a length; nothing turns chunked coding off again,
  // and the client finds chunk framing where it expects three bytes.
  lemma RefusedFlushThenLength(data: seq<Byte>) returns (r: Response, ops: seq<Op>)
    requires |data| == 3
    ensures Fresh(r) && !r.config.isHead
    ensures ops == [FlushOp, AskOp(Asks(Declared(3), "")), WriteOp(data), FlushOp]
    ensures var q := Conclude(Run(r, ops), Plainly(Completes, false));
            && Reused(q) && q.trace.lost == 0 && q.header.contentLength == 3
            && Body(q) == EncodeChunk(data) + ZERO_CHUNK && !WellFramed(q)
  {
    hide HeaderBlock, EncodeChunk, WellFramed, Conclude, Body;
    r := NewResponse(Asks(NoLength, seq(980, _ => 'x')));
    var w := Asks(Declared(3), "");
    ops := [FlushOp, AskOp(w), WriteOp(data), FlushOp];
    BlockOf(r, Upcoming(r));
    RefusedFlush(r);
    var r1 := Flush(r).0;
    var r3 := r1.(wish := w, local := data, position := 3);
    assert Apply(r1, AskOp(w)).0 == r1.(wish := w);
    assert Write(r1.(wish := w), data).0 == r3 by { assert [] + data == data; }
    RunTwo(r, FlushOp, AskOp(w));
    RunTwo(r1.(wish := w), WriteOp(data), FlushOp);
    RunFour(r, FlushOp, AskOp(w), WriteOp(data), FlushOp);
    LeftOverChunking(r3);
  }

  /** Three bytes are flushed behind a declared length, with chunked coding on from before. */
  lemma LeftOverChunking(r: Response)
    requires r.config == Config(1024, false, false, None) && r.wish == Asks(Declared(3), "")
    requires r.header.keepAlive && r.header.chunked && !r.headersSent && !r.closed && r.trace == Trace([], [], 0)
    requires |r.local| == 3 && r.position == 3
    ensures var q := Conclude(Flush(r).0, Plainly(Completes, false));
            && Reused(q) && q.trace.lost == 0 && q.header.contentLength == 3
            && Body(q) == EncodeChunk(r.local) + ZERO_CHUNK && !WellFramed(q)
  {
    hide HeaderBlock, EncodeChunk, WellFramed;
    BlockOf(r, Upcoming(r));
    assert Decimal(3) == "3";
    var e := Flush(r).0;
    assert Finish(e).trace.wire == e.head + (EncodeChunk(r.local) + ZERO_CHUNK);
    LongerThanAnnounced(Finish(e));
  }

  /** More stands behind such a header block than it announces. */
  lemma LongerThanAnnounced(q: Response)
    requires Headed(q) && q.config.serverName.None? && q.header.reason.Some? && q.header.reason.value == ""
    requires q.header.date == "" && q.header.shown == [] && !Bodiless(q.header.statusCode)
    requires |Body(q)| > q.header.contentLength && q.header.contentLength < ULONG_MAX
    ensures !WellFramed(q)
  {
    hide HeaderBlock, WellFramed, Readable, Headed;
    BareIsReadable(q);
    WireFraming(q);
  }

  /** A header block without fields, date and reason. */
  lemma BareIsReadable(q: Response)
    requires q.config.serverName.None? && (q.header.reason.Some? ==> q.header.reason.value == "")
    requires q.header.date == "" && q.header.shown == []
    ensures Readable(q)
  {
    NothingShown();
  }

  lemma RunFour(r: Response, a: Op, b: Op, c: Op, d: Op)
    requires ValidConfig(r.config) && |r.local| <= r.config.size
    ensures Run(r, [a, b, c, d]) == Run(Run(r, [a, b]), [c, d])
  {
    hide Apply;
    RunTwo(r, a, b);
    assert [a, b, c, d][1..] == [b, c, d] && [b, c, d][1..] == [c, d];
    assert Run(Apply(r, a).0, [b, c, d]) == Run(Apply(Apply(r, a).0, b).0, [c, d]);
  }

  // Status 599 is no status for a client: the connection is closed, and nothing is sent, also if the
  // header block of a response with this status is out.
  lemma StatusAborts(data: seq<Byte>)
    requires data != [] && |data| <= 1024
    ensures var q := Conclude(Run(NewResponse(AsksStatus(ABORT)), []), Plainly(Completes, false));
            !Reused(q) && q.closed && q.trace.wire == []
    ensures var e := Run(NewResponse(AsksStatus(ABORT)), [WriteOp(data), FlushOp]);
            var q := Conclude(e, Plainly(Completes, false));
            && !Reused(q) && q.closed && q.header.statusCode == ABORT
            && Decode(START, Body(q)) == Decoded(START, data, [])
  {
    hide HeaderBlock, EncodeChunk, Decode;
    var r := NewResponse(AsksStatus(ABORT));
    var ops := [WriteOp(data), FlushOp];
    assert ops[1..] == [FlushOp] && Written([FlushOp]) == [] && data + [] == data;
    assert !Refuses(r) by { ShortBlock(r); }
    ChunkedResponse(r, ops, Plainly(Completes, false));
    RunTwo(r, WriteOp(data), FlushOp);
    var r1 := r.(local := data, position := |data|);
    assert Write(r, data).0 == r1 by { assert [] + data == data; }
    ShortBlock(r1);
    FreshIsInv(r);
    WrittenInOrder(r, ops);
    OpeningFlush(r1);
    assert Concat(Flush(r1).0.trace.blocks) == data;
  }

  lemma ShortBlock(r: Response)
    requires r.config == Config(1024, false, false, None) && 200 <= r.wish.statusCode <= 999
    requires r.wish == AsksStatus(r.wish.statusCode) && r.header.contentLength == ULONG_MAX && !r.headersSent
    ensures !Refuses(r) && Upcoming(r).statusCode == r.wish.statusCode
  {
    var d := Upcoming(r);
    assert |StatusLine(d)| == 14 && |FramingLines(r.config, d)| == 28;
    assert |ConnectionLines(r.config, d)| <= 19 && |ServerLines(r.config, d)| <= 8 && FieldLines(d.shown) == "";
  }

  // A flush under status 204 sends the header block with chunked coding; the zero chunk behind it is
  // taken for the beginning of the next response.
  lemma FlushedNoContent()
    ensures var q := Conclude(Run(NewResponse(AsksStatus(204)), [FlushOp]), Plainly(Completes, false));
            Reused(q) && Body(q) == ZERO_CHUNK && !WellFramed(q)
  {
    hide HeaderBlock, Decode, WellFramed, Readable;
    var r := NewResponse(AsksStatus(204));
    ShortBlock(r);
    var e := Flush(r).0;
    assert [FlushOp][1..] == [] && Run(r, [FlushOp]) == e;
    FreshIsInv(r);
    OpeningFlush(r);
    assert Finish(e).trace.wire == e.head + ZERO_CHUNK;
    BareIsReadable(Finish(e));
    WireFraming(Finish(e));
  }
}
