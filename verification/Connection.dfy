/**
 * Parser and receiver together: what ParseRequest takes from a head decides how the bytes behind it are
 * read (Nowin/Transport2HttpHandler.cs:115-236, 1072-1138, 1414-1450, Nowin/ReqRespStream.cs:46-159), and
 * so where the next request begins, against section 3.3.3 of RFC 7230.
 */
module Connection {
  import opened Bytes
  import opened Chunked
  import opened ChunkedBody
  import opened BodyReader
  import opened ParsePath
  import opened RequestEnd
  import opened RequestHeaders
  import opened RequestHead
  import opened Input

  // ---------------------------------------------------------------------------------------
  // A head means the same wherever it stands in the buffer
  // ---------------------------------------------------------------------------------------

  /** `h` stands in `b` from `o` on. */
  predicate Window(b: seq<Byte>, o: nat, h: seq<Byte>) {
    o + |h| <= |b| && forall i {:trigger h[i]} {:trigger b[o + i]} :: 0 <= i < |h| ==> b[o + i] == h[i]
  }

  lemma {:induction false} FirstMoves(b: seq<Byte>, o: nat, h: seq<Byte>, i: nat, k: Stop, last: nat)
    requires Window(b, o, h) && Ends(h, last) && i <= last
    ensures Ends(b, o + last) && First(b, o + i, k, o + last) == o + First(h, i, k, last)
    decreases last - i
  {
    hide StopsAt;
    assert b[o + i] == h[i] && b[o + last] == h[last] && b[o + (last + 1)] == h[last + 1];
    assert StopsAt(k, CR) by { CrStops(k); }
    if !StopsAt(k, h[i]) {
      FirstMoves(b, o, h, i + 1, k, last);
    }
  }

  lemma CrStops(k: Stop)
    ensures StopsAt(k, CR)
  {
  }

  lemma SliceMoves(b: seq<Byte>, o: nat, h: seq<Byte>, i: nat, j: nat)
    requires Window(b, o, h) && i <= j <= |h|
    ensures b[o + i..o + j] == h[i..j]
  {
    forall k | 0 <= k < j - i
      ensures b[o + i..o + j][k] == h[i..j][k]
    {
      assert b[o + (i + k)] == h[i + k];
    }
  }

  lemma {:induction false} PathMoves(b: seq<Byte>, o: nat, h: seq<Byte>, i: nat, end: nat, a: Acc)
    requires Window(b, o, h) && Delimited(h, end) && i <= end + 1
    ensures Delimited(b, o + end) && Path(b, o + i, o + end, a) == Path(h, i, end, a)
    decreases end + 1 - i
  {
    hide ParseHexChar, FeedByte, Turn;
    assert b[o + end] == h[end];
    if i < end {
      TurnMoves(b, o, h, i, end, a);
      var (i', a', out) := Turn(h, i, end, a);
      PathMoves(b, o, h, i', end, a');
    }
  }

  lemma TurnMoves(b: seq<Byte>, o: nat, h: seq<Byte>, i: nat, end: nat, a: Acc)
    requires Window(b, o, h) && Delimited(h, end) && i < end
    ensures Delimited(b, o + end)
    ensures var (i', a', out) := Turn(h, i, end, a); Turn(b, o + i, o + end, a) == (o + i', a', out)
  {
    hide FeedByte;
    assert b[o + end] == h[end] && b[o + i] == h[i] && b[o + (i + 1)] == h[i + 1];
    if i + 2 < |h| {
      assert b[o + (i + 2)] == h[i + 2];
    }
  }

  lemma {:induction false} WordMoves(b: seq<Byte>, o: nat, h: seq<Byte>, p: nat, word: seq<Byte>, last: nat)
    requires Window(b, o, h) && Ends(h, last) && p <= last && CR !in word
    ensures Ends(b, o + last) && Reads(b, o + p, word, o + last) == Reads(h, p, word, last)
    decreases |word|
  {
    assert b[o + p] == h[p] && b[o + last] == h[last] && b[o + (last + 1)] == h[last + 1];
    if word != [] && h[p] == word[0] {
      WordMoves(b, o, h, p + 1, word[1..], last);
    }
  }

  lemma TokenMoves(b: seq<Byte>, o: nat, h: seq<Byte>, pos: nat, last: nat)
    requires Window(b, o, h) && Ends(h, last) && pos <= last
    ensures Ends(b, o + last)
    ensures var (m, next) := Token(h, pos, last); Token(b, o + pos, o + last) == (m, o + next)
  {
    hide First;
    FirstMoves(b, o, h, pos, SpaceOrEnd, last);
    var p := First(h, pos, SpaceOrEnd, last);
    SliceMoves(b, o, h, pos, p);
    assert b[o + p] == h[p];
  }

  /** `t` with its position moved by `o`. */
  function Moved(o: nat, t: Option<Target>): Option<Target> {
    if t.Some? then Some(t.value.(next := o + t.value.next)) else None
  }

  lemma TargetMoves(b: seq<Byte>, o: nat, h: seq<Byte>, pos: nat, last: nat)
    requires Window(b, o, h) && Ends(h, last) && pos <= last
    ensures Ends(b, o + last) && ParseTarget(b, o + pos, o + last) == Moved(o, ParseTarget(h, pos, last))
  {
    hide First, Path, ParseHexChar;
    assert b[o + pos] == h[pos] && b[o + (pos + 1)] == h[pos + 1];
    assert b[o + last] == h[last] && b[o + (last + 1)] == h[last + 1];
    if h[pos] == SLASH {
      FirstMoves(b, o, h, pos + 1, SpaceQuestionOrEnd, last);
      var p := First(h, pos + 1, SpaceQuestionOrEnd, last);
      assert b[o + p] == h[p];
      StopIsDelimiter(h, p);
      PathMoves(b, o, h, pos, p, NONE);
      if h[p] == QUESTION_MARK {
        FirstMoves(b, o, h, p + 1, SpaceOrEnd, last);
        var q := First(h, p + 1, SpaceOrEnd, last);
        assert b[o + q] == h[q];
        StopIsDelimiter(h, q);
        PathMoves(b, o, h, p + 1, q, NONE);
      }
    }
  }

  lemma StopIsDelimiter(h: seq<Byte>, p: nat)
    requires p < |h| && StopsAt(SpaceQuestionOrEnd, h[p])
    ensures Delimited(h, p)
  {
  }

  lemma VersionMoves(b: seq<Byte>, o: nat, h: seq<Byte>, pos: nat, last: nat)
    requires Window(b, o, h) && Ends(h, last) && pos <= last
    ensures Ends(b, o + last) && ParseVersion(b, o + pos, o + last) == ParseVersion(h, pos, last)
  {
    hide Reads;
    WordMoves(b, o, h, pos, HTTP1, last);
    if Reads(h, pos, HTTP1, last) {
      assert b[o + (pos + 7)] == h[pos + 7] && b[o + (pos + 8)] == h[pos + 8];
      if pos + 9 < |h| {
        assert b[o + (pos + 9)] == h[pos + 9];
      }
    }
  }

  lemma ValueMoves(b: seq<Byte>, o: nat, h: seq<Byte>, p: nat, last: nat)
    requires Window(b, o, h) && Ends(h, last) && p < last
    ensures Ends(b, o + last)
    ensures var v := First(h, p + 1, NotBlank, last);
            var q := First(h, v, ToCR, last);
            && First(b, o + p + 1, NotBlank, o + last) == o + v && First(b, o + v, ToCR, o + last) == o + q
            && v <= q && q + 2 <= |h| && last + 2 <= |h|
            && v <= q && q + 2 <= |h| && o + |h| <= |b|
            && b[o + v..o + q] == h[v..q] && b[o + q + 1] == h[q + 1]
  {
    hide First;
    FirstMoves(b, o, h, p + 1, NotBlank, last);
    var v := First(h, p + 1, NotBlank, last);
    FirstMoves(b, o, h, v, ToCR, last);
    var q := First(h, v, ToCR, last);
    SliceMoves(b, o, h, v, q);
    assert b[o + (q + 1)] == h[q + 1];
  }

  lemma NameMoves(b: seq<Byte>, o: nat, h: seq<Byte>, pos: nat, last: nat)
    requires Window(b, o, h) && Ends(h, last) && pos < last
    ensures Ends(b, o + last) && b[o + pos] == h[pos]
    ensures var p := First(h, pos, TokenEnd, last);
            First(b, o + pos, TokenEnd, o + last) == o + p && b[o + pos..o + p] == h[pos..p] && b[o + p] == h[p]
  {
    hide First;
    FirstMoves(b, o, h, pos, TokenEnd, last);
    var p := First(h, pos, TokenEnd, last);
    SliceMoves(b, o, h, pos, p);
    assert b[o + p] == h[p];
  }

  lemma FieldMoves(b: seq<Byte>, o: nat, h: seq<Byte>, pos: nat, last: nat, name: seq<Byte>)
    requires Window(b, o, h) && Ends(h, last) && pos < last
    ensures Ends(b, o + last)
    ensures var r, r' := ParseField(h, pos, last, name), ParseField(b, o + pos, o + last, name);
            if r.None? then r'.None? else r' == Some((r.value.0, o + r.value.1))
  {
    hide First, Window, ParseField, Blank;
    NameMoves(b, o, h, pos, last);
    FieldFails(h, pos, last, name);
    FieldFails(b, o + pos, o + last, name);
    if Blank(h[pos]) {
      BehindName(b, o, h, pos, last, name, pos, name);
    } else {
      var p := First(h, pos, TokenEnd, last);
      if h[p] == COLON {
        ColonIsNotLast(h, p, last);
        BehindName(b, o, h, pos, last, name, p, h[pos..p]);
      }
    }
  }

  lemma ColonIsNotLast(h: seq<Byte>, p: nat, last: nat)
    requires Ends(h, last) && p <= last && h[p] == COLON
    ensures p < last
  {
  }

  /** The name ends at `p` in both places; so the rest is the same, too. */
  lemma BehindName(b: seq<Byte>, o: nat, h: seq<Byte>, pos: nat, last: nat, name: seq<Byte>, p: nat, name': seq<Byte>)
    requires Window(b, o, h) && Ends(h, last) && Ends(b, o + last) && pos <= p < last && b[o + pos] == h[pos]
    requires if Blank(h[pos]) then p == pos && name' == name
             else p == First(h, pos, TokenEnd, last) && h[p] == COLON && h[pos..p] == name'
                  && o + p == First(b, o + pos, TokenEnd, o + last) && b[o + p] == COLON && b[o + pos..o + p] == name'
    ensures var r, r' := ParseField(h, pos, last, name), ParseField(b, o + pos, o + last, name);
            r.Some? && r' == Some((r.value.0, o + r.value.1))
  {
    hide *;
    ValueMoves(b, o, h, p, last);
    var v := First(h, p + 1, NotBlank, last);
    var q := First(h, v, ToCR, last);
    var value := h[v..q];
    assert b[o + v..o + q] == value && b[o + q + 1] == h[q + 1];
    FieldIs(h, pos, last, name, p, v, q, name', value);
    FieldIs(b, o + pos, o + last, name, o + p, o + v, o + q, name', value);
  }

  lemma {:induction false} FieldsMove(b: seq<Byte>, o: nat, h: seq<Byte>, pos: nat, last: nat, name: seq<Byte>)
    requires Window(b, o, h) && Ends(h, last)
    ensures Ends(b, o + last) && ParseFields(b, o + pos, o + last, name) == ParseFields(h, pos, last, name)
    decreases last + 2 - pos
  {
    hide ParseField;
    assert b[o + last] == h[last] && b[o + (last + 1)] == h[last + 1];
    if pos < last {
      FieldMoves(b, o, h, pos, last, name);
      var r := ParseField(h, pos, last, name);
      if r.Some? {
        FieldsMove(b, o, h, r.value.1, last, r.value.0.name);
      }
    }
  }

  lemma HeadMoves(b: seq<Byte>, o: nat, h: seq<Byte>, last: nat, parse: LengthParser)
    requires Window(b, o, h) && Ends(h, last)
    ensures Ends(b, o + last) && ParseHead(b, o, o + last, parse) == ParseHead(h, 0, last, parse)
  {
    hide Token, ParseTarget, ParseVersion, ParseFields, Interpret;
    TokenMoves(b, o, h, 0, last);
    var pos := Token(h, 0, last).1;
    TargetMoves(b, o, h, pos, last);
    var t := ParseTarget(h, pos, last);
    if t.Some? {
      VersionMoves(b, o, h, t.value.next, last);
      FieldsMove(b, o, h, t.value.next + 10, last, []);
    }
  }

  // ---------------------------------------------------------------------------------------
  // The receiver's view of the parser
  // ---------------------------------------------------------------------------------------

  /** What ParseRequest takes from a head; None where it throws. */
  function MeaningOf(head: seq<Byte>, parse: LengthParser): Option<Meaning> {
    if |head| >= 2 && Ends(head, |head| - 2) then
      match ParseHead(head, 0, |head| - 2, parse)
      case None => None
      case Some(h) => Some(h.meaning)
    else None
  }

  function ParserSetup(size: nat, parse: LengthParser): Setup {
    Setup(size, head => MeaningOf(head, parse))
  }

  /** The head that the receiver cuts out has the meaning that the parser finds in the buffer. */
  lemma ParserComposes(b: seq<Byte>, start: nat, end: nat, parse: LengthParser)
    requires start <= end <= |b| && Scan(0, b[start..end]) == end - start
    ensures start + 4 <= end && Ends(b, end - 2)
    ensures var parsed := ParseHead(b, start, end - 2, parse);
            MeaningOf(b[start..end], parse) == if parsed.None? then None else Some(parsed.value.meaning)
  {
    hide ParseHead, Scan;
    FoundHeadEnds(b, start, end);
    var h := b[start..end];
    assert h[|h| - 2] == b[end - 2] && h[|h| - 1] == b[end - 1];
    HeadMoves(b, start, h, |h| - 2, parse);
  }

  // ---------------------------------------------------------------------------------------
  // Where the next request begins
  // ---------------------------------------------------------------------------------------

  /** The application, or the drain behind it, has read the body; `c` stood in front of the head. */
  function BodyRead(c: Stream, head: seq<Byte>, body: seq<Byte>): Stream {
    Stream(c.heads + [head], c.bodies + [body], Waiting([]))
  }

  /** Whatever the head promises: the body is its rest, and the next request is awaited behind it. */
  lemma NextRequestIsBehind(setup: Setup, c: Stream, head: seq<Byte>, s: seq<Byte>)
    requires setup.parse(head).Some? && Holds(Opening(setup.parse(head).value), s)
    ensures var r := Opening(setup.parse(head).value);
            && Sane(BodyRead(c, head, Rest(r, s)))
            && Fold(setup, HeadDone(setup, c, head), s) == Fold(setup, BodyRead(c, head, Rest(r, s)), Behind(r, s))
  {
    hide Fold, Take, Matched, HeadDone, Opening, Reading, Sane, Settle;
    var r := Opening(setup.parse(head).value);
    var t := Take(r, s, r.left);
    var c' := HeadDone(setup, c, head);
    OpensBody(setup, c, head);
    FoldTake(setup, c', r, s, r.left);
    ReadToEnd(c, head, c', t.out, t.r);
  }

  lemma OpensBody(setup: Setup, c: Stream, head: seq<Byte>)
    requires setup.parse(head).Some?
    ensures var r := Opening(setup.parse(head).value);
            HeadDone(setup, c, head) == Stream(c.heads + [head], c.bodies + [[]], Settle(r))
  {
  }

  lemma ReadToEnd(c: Stream, head: seq<Byte>, c': Stream, out: seq<Byte>, r: Reader)
    requires c'.heads == c.heads + [head] && c'.bodies == c.bodies + [[]] && r.left == 0
    ensures Reading(c', out, r) == BodyRead(c, head, out) && Sane(BodyRead(c, head, out))
  {
    hide Matched;
    NothingMatched();
    assert [] + out == out && (c.bodies + [[]])[..|c.bodies|] == c.bodies;
  }

  lemma NothingMatched()
    ensures Matched(0, []) == 0
  {
  }

  /**
   * Behind a chunked body of the standard's form the next request is found if and only if no
   * Content-Length follows the last chunked field, or the last one that does exceeds the decoded length.
   * Otherwise the reads stop in the body, and its last bytes are taken for the next request.
   */
  lemma ChunkedRequestIsRead(fs: seq<Field>, isHttp10: bool, parse: LengthParser, body: WireBody, next: seq<Byte>)
    requires var m := Interpret(fs, isHttp10, parse); m.Some? && m.value.chunked
    requires ValidBody(body) && |Payload(body.chunks)| < ULONG_MAX
    ensures var r := Opening(Interpret(fs, isHttp10, parse).value);
            var s, payload := ChunkedBody.Render(body) + next, Payload(body.chunks);
            && Holds(r, s)
            && Rest(r, s) == (if r.left <= |payload| then payload[..r.left] else payload)
            && (r.left <= |payload| ==> |Behind(r, s)| > |next|)
            && (Behind(r, s) == next <==>
                forall i :: 0 <= i < |fs| && IsLength(fs[i]) && !Any(fs[i + 1..], Limits)
                  ==> parse(fs[i].value).Some? && parse(fs[i].value).value > |payload|)
  {
    hide Interpret, ChunkedBody.Render, Payload, Holds, Rest, Behind, IsChunked, Any, IsLength;
    var m := Interpret(fs, isHttp10, parse).value;
    ChunkedBodyIsHeld(m.contentLength, body, next);
    SomeChunked(fs, isHttp10, parse);
    var last := LastLimit(fs);
    WhatFieldsLimit(fs, isHttp10, parse, last);
    forall i | 0 <= i < |fs| && IsLength(fs[i]) && !Any(fs[i + 1..], Limits)
      ensures i == last
    {
      OneLast(fs, i, last);
    }
  }

  /**
   * Without chunked coding the body is the next bytes as they are, as many as the last Content-Length
   * says, none without one; and the next request begins behind them.
   */
  lemma SizedRequestIsRead(fs: seq<Field>, isHttp10: bool, parse: LengthParser, s: seq<Byte>)
    requires Interpret(fs, isHttp10, parse).Some? && !Any(fs, IsChunked)
    ensures var m := Interpret(fs, isHttp10, parse).value;
            var n := m.contentLength;
            && (!Any(fs, IsLength) ==> n == 0)
            && (forall i :: 0 <= i < |fs| && IsLength(fs[i]) && !Any(fs[i + 1..], IsLength)
                  ==> parse(fs[i].value) == Some(n))
            && (Holds(Opening(m), s) <==> |s| >= n)
            && (|s| >= n ==> Rest(Opening(m), s) == s[..n] && Behind(Opening(m), s) == s[n..])
  {
    hide Interpret, IsChunked, IsLength;
    WhatFieldsSay(fs, isHttp10, parse);
    assert s[..|s|] == s;
    if !Any(fs, IsLength) {
      LengthsLimit(fs);
      NoFieldLimits(fs, isHttp10, parse);
    }
    forall i | 0 <= i < |fs| && IsLength(fs[i]) && !Any(fs[i + 1..], IsLength)
      ensures parse(fs[i].value) == Some(Interpret(fs, isHttp10, parse).value.contentLength)
    {
      TailSaysNo(fs, i + 1);
      LengthsLimit(fs[i + 1..]);
      WhatFieldsLimit(fs, isHttp10, parse, i);
    }
  }

  lemma TailSaysNo(fs: seq<Field>, i: nat)
    requires i <= |fs| && !Any(fs, IsChunked)
    ensures !Any(fs[i..], IsChunked)
  {
    hide IsChunked;
    forall k | 0 <= k < |fs[i..]|
      ensures !IsChunked(fs[i..][k])
    {
      assert fs[i..][k] == fs[i + k];
    }
  }

  lemma LengthsLimit(fs: seq<Field>)
    requires !Any(fs, IsChunked)
    ensures Any(fs, Limits) ==> Any(fs, IsLength)
  {
    hide IsChunked, IsLength;
  }

  /** Only one limiting field is the last. */
  lemma OneLast(fs: seq<Field>, i: nat, j: nat)
    requires i < |fs| && Limits(fs[i]) && !Any(fs[i + 1..], Limits)
    requires j < |fs| && Limits(fs[j]) && !Any(fs[j + 1..], Limits)
    ensures i == j
  {
    hide Limits, Any;
    if i < j {
      LimitBehind(fs, i, j);
    } else if j < i {
      LimitBehind(fs, j, i);
    }
  }

  lemma LimitBehind(fs: seq<Field>, i: nat, j: nat)
    requires i < j < |fs| && Limits(fs[j])
    ensures Any(fs[i + 1..], Limits)
  {
    hide Limits;
    assert fs[i + 1..][j - i - 1] == fs[j];
  }

  lemma SomeChunked(fs: seq<Field>, isHttp10: bool, parse: LengthParser)
    requires var m := Interpret(fs, isHttp10, parse); m.Some? && m.value.chunked
    ensures Any(fs, Limits)
  {
    hide Interpret, IsLength, IsChunked;
    WhatFieldsSay(fs, isHttp10, parse);
    var i :| 0 <= i < |fs| && IsChunked(fs[i]);
    assert Limits(fs[i]);
  }

  // ---------------------------------------------------------------------------------------
  // A head with Transfer-Encoding and Content-Length
  // ---------------------------------------------------------------------------------------

  const ONE: seq<Byte> := [49]

  /** GET / HTTP/1.1 with Transfer-Encoding: chunked and Content-Length: 1, in this order. */
  function BothHeaders(): Request {
    Request([71, 69, 84], PathTarget([Plain(47)], None), 49,
            [Named(Latin1("Transfer-Encoding"), [32], Latin1("chunked")), Named(Latin1("Content-Length"), [32], ONE)])
  }

  lemma BothHeadersMean(parse: LengthParser)
    requires parse(ONE) == Some(1)
    ensures LegalRequest(BothHeaders())
    ensures var m := MeaningOf(RenderRequest(BothHeaders()), parse);
            m.Some? && m.value.chunked && m.value.contentLength == 1
  {
    hide *;
    BothAreLegal();
    BothFields();
    BothMean(parse);
    RenderedMeans(BothHeaders(), parse);
    VersionOfBoth();
  }

  lemma VersionOfBoth()
    ensures BothHeaders().version != HTTP10_DIGIT
  {
  }

  /** A rendered head means what its fields say. */
  lemma RenderedMeans(r: Request, parse: LengthParser)
    requires LegalRequest(r)
    ensures MeaningOf(RenderRequest(r), parse) == Interpret(FieldsOf(r.lines, []), r.version == HTTP10_DIGIT, parse)
  {
    hide LegalRequest, RenderRequest, ParseHead, Interpret, FieldsOf, Scan;
    HeadRoundTrip([], r, [], parse);
    assert [] + RenderRequest(r) + [] == RenderRequest(r);
  }

  lemma BothAreLegal()
    ensures LegalRequest(BothHeaders())
  {
    var r := BothHeaders();
    assert Plain(47) == r.target.path[0] && RenderAll(r.target.path[1..]) == [];
    assert RenderAll(r.target.path) == [47];
    NameIsLegal("Transfer-Encoding");
    NameIsLegal("Content-Length");
    NameIsLegal("chunked");
    assert LegalLine(r.lines[0]) && LegalLine(r.lines[1]);
  }

  lemma NameIsLegal(name: string)
    requires forall i :: 0 <= i < |name| ==> 'A' <= name[i] <= 'z' || name[i] == '-'
    ensures Free(TokenEnd, Latin1(name)) && Free(ToCR, Latin1(name)) && !(name != "" && Blank(Latin1(name)[0]))
  {
  }

  lemma BothFields()
    ensures FieldsOf(BothHeaders().lines, []) == BOTH
  {
    var ls := BothHeaders().lines;
    assert ls[1..] == [ls[1]] && ls[1..][1..] == [];
  }

  const BOTH: seq<Field> := [Field(true, Latin1("Transfer-Encoding"), Latin1("chunked")),
                             Field(true, Latin1("Content-Length"), ONE)]

  lemma BothMean(parse: LengthParser)
    requires parse(ONE) == Some(1)
    ensures var m := Interpret(BOTH, false, parse);
            m.Some? && m.value.chunked && m.value.contentLength == 1
  {
    hide Interpret, Canonical, Latin1;
    SameLength(Latin1("Transfer-Encoding"), "Content-Length");
    assert IsChunked(BOTH[0]) && IsLength(BOTH[1]) && !IsLength(BOTH[0]);
    WhatFieldsSay(BOTH, false, parse);
    assert BOTH[1 + 1..] == [];
    WhatFieldsLimit(BOTH, false, parse, 1);
  }

  /** 3 CR LF abc CR LF 0 CR LF CR LF */
  const BODY: seq<Byte> := [51, 13, 10, 97, 98, 99, 13, 10, 48, 13, 10, 13, 10]

  const TAIL: seq<Byte> := [98, 99, 13, 10, 48, 13, 10, 13, 10]

  /** One byte of the chunked body is read, and the rest is handed to the parser as the next head. */
  lemma ClippedBody(setup: Setup, head: seq<Byte>)
    requires setup.size >= 1024 && setup.parse(head).Some?
    requires setup.parse(head).value.chunked && setup.parse(head).value.contentLength == 1
    ensures Sane(HeadDone(setup, BEGIN, head))
    ensures var c := Fold(setup, HeadDone(setup, BEGIN, head), BODY);
            c.heads == [head, TAIL] && c.bodies == [[97], []]
  {
    hide Fold, Take, TakeCoded, Scan, Matched, HeadDone;
    OneByteTaken();
    NextRequestIsBehind(setup, BEGIN, head, BODY);
    assert BODY[4..] == TAIL;
    var c := BodyRead(BEGIN, head, [97]);
    TailIsHead();
    NothingScanned();
    FoldHead(setup, c, [], TAIL);
    assert [] + TAIL == TAIL && TAIL[..9] == TAIL && TAIL[9..] == [];
    FoldNothing(setup, HeadDone(setup, c, TAIL));
    HeadDoneIs(setup, c, TAIL);
  }

  /** The whole run: one head, its chunked body, and the application reads nothing. */
  lemma ClippedConnection(size: nat, parse: LengthParser) returns (head: seq<Byte>)
    requires size >= 1024 && parse(ONE) == Some(1)
    ensures LegalRequest(BothHeaders()) && head == RenderRequest(BothHeaders())
    ensures Sane(BEGIN)
    ensures var c := Fold(ParserSetup(size, parse), BEGIN, head + BODY);
            c.heads == [head, TAIL] && c.bodies == [[97], []]
  {
    hide Fold, Scan, Matched, HeadDone, RenderRequest, LegalRequest, MeaningOf;
    var setup := ParserSetup(size, parse);
    BothHeadersMean(parse);
    head := RenderRequest(BothHeaders());
    BothAreShort();
    RenderedEndIsFound(BothHeaders(), []);
    NothingScanned();
    assert [] + head == head + [] == head && head[..|head|] == head && head[|head|..] == [];
    FoldHead(setup, BEGIN, [], head);
    ClippedBody(setup, head);
    FoldSplit(setup, BEGIN, head, BODY);
    FoldNothing(setup, HeadDone(setup, BEGIN, head));
  }

  lemma BothAreShort()
    ensures LegalRequest(BothHeaders()) && |RenderRequest(BothHeaders())| <= 1024
  {
    BothAreLegal();
    var r := BothHeaders();
    assert RenderAll(r.target.path[1..]) == [];
    assert r.lines[1..] == [r.lines[1]] && r.lines[1..][1..] == [] && RenderLines([]) == [];
    assert |RenderLine(r.lines[0])| <= 40 && |RenderLine(r.lines[1])| <= 40;
  }

  lemma HeadDoneIs(setup: Setup, c: Stream, head: seq<Byte>)
    ensures HeadDone(setup, c, head).heads == c.heads + [head] && HeadDone(setup, c, head).bodies == c.bodies + [[]]
  {
  }

  lemma NothingScanned()
    ensures Scan(0, []) == -1
  {
  }

  lemma TailIsHead()
    ensures Scan(0, TAIL) == 9
  {
    assert TAIL[1..][1..] == [13, 10, 48, 13, 10, 13, 10];
    assert Scan(0, [48, 13, 10, 13, 10]) == 5;
  }

  lemma DigitTaken()
    ensures TakeCoded(START, BODY, 1) == Prepend([], TakeCoded(Decoder(InHex, 3, 0), BODY[1..], 1))
  {
    hide TakeCoded;
    TakeCodedStep(START, BODY, 1);
  }

  lemma LineTaken(s: seq<Byte>)
    requires |s| >= 2 && s[0] == CR && s[1] == LF
    ensures TakeCoded(Decoder(InHex, 3, 0), s, 1) ==
            Prepend([], Prepend([], TakeCoded(Decoder(InData, 3, 3), s[1..][1..], 1)))
  {
    hide TakeCoded;
    TakeCodedStep(Decoder(InHex, 3, 0), s, 1);
    TakeCodedStep(Decoder(AfterCR, 3, 0), s[1..], 1);
  }

  lemma ByteTaken(s: seq<Byte>)
    requires s != []
    ensures var t := TakeCoded(Decoder(InData, 3, 3), s, 1); t.out == [s[0]] && t.used == 1 && !t.ended
  {
    hide TakeCoded;
    var d := Decoder(InData, 3, 3);
    TakeCodedStep(d, s, 1);
    TakeCodedStep(Feed(d, s[0]).0, s[1..], 0);
  }

  lemma OneByteTaken()
    ensures var t := Take(Coded(1, START), BODY, 1);
            t.out == [97] && t.used == 4 && !t.ended
  {
    hide TakeCoded;
    DigitTaken();
    LineTaken(BODY[1..]);
    ByteTaken(BODY[1..][1..][1..]);
  }
}
