/**
 * Parsing a request head (Nowin/Transport2HttpHandler.cs:115-169, 238-355, 460-574). None of the
 * loops of the source checks a bound; here the head is only required to end in CR LF CR LF at `end`,
 * and the buffer may end there too, so everything read lies before `end`.
 */
module RequestHead {
  import opened Bytes
  import opened ParsePath
  import opened RequestEnd
  import opened RequestHeaders

  const TAB: Byte := 9
  const SPACE: Byte := 32
  const STAR: Byte := 42
  const SLASH: Byte := 47
  const COLON: Byte := 58
  const HTTP1: seq<Byte> := [72, 84, 84, 80, 47, 49, 46]

  // ---------------------------------------------------------------------------------------
  // Scanning
  // ---------------------------------------------------------------------------------------

  /** What the five scanning loops look for; each stops at CR. */
  datatype Stop = SpaceOrEnd | SpaceQuestionOrEnd | TokenEnd | ToCR | NotBlank

  predicate Blank(c: Byte) { c == SPACE || c == TAB }

  predicate StopsAt(k: Stop, c: Byte) {
    match k
    case SpaceOrEnd => c == SPACE || c == CR
    case SpaceQuestionOrEnd => c == SPACE || c == QUESTION_MARK || c == CR
    case TokenEnd => c <= 32 || c == COLON
    case ToCR => c == CR
    case NotBlank => !Blank(c)
  }

  /** The head ends at last + 2 with CR LF. */
  predicate Ends(b: seq<Byte>, last: nat) {
    last + 2 <= |b| && b[last] == CR && b[last + 1] == LF
  }

  function First(b: seq<Byte>, i: nat, k: Stop, last: nat): (p: nat)
    requires i <= last && Ends(b, last)
    ensures i <= p <= last && StopsAt(k, b[p])
    ensures forall j :: i <= j < p ==> !StopsAt(k, b[j])
    decreases last - i
  {
    if StopsAt(k, b[i]) then i else First(b, i + 1, k, last)
  }

  lemma FirstIs(b: seq<Byte>, i: nat, k: Stop, last: nat, p: nat)
    requires i <= p <= last && Ends(b, last) && StopsAt(k, b[p])
    requires forall j :: i <= j < p ==> !StopsAt(k, b[j])
    ensures First(b, i, k, last) == p
  {
  }

  predicate Reads(b: seq<Byte>, p: nat, word: seq<Byte>, last: nat)
    requires p <= last && Ends(b, last) && CR !in word
    ensures Reads(b, p, word, last) ==> p + |word| <= last && b[p..p + |word|] == word
    decreases |word|
  {
    word == [] || (b[p] == word[0] && Reads(b, p + 1, word[1..], last))
  }

  // ---------------------------------------------------------------------------------------
  // The parts of a head
  // ---------------------------------------------------------------------------------------

  /** The text up to the first space or line end, and where the next part begins. */
  function Token(b: seq<Byte>, pos: nat, last: nat): (r: (seq<Byte>, nat))
    requires pos <= last && Ends(b, last)
    ensures pos <= r.1 <= last
  {
    var p := First(b, pos, SpaceOrEnd, last);
    (b[pos..p], if b[p] == SPACE then p + 1 else p)
  }

  datatype Target = Target(path: seq<Unit>, query: seq<Unit>, next: nat)

  function ParseTarget(b: seq<Byte>, pos: nat, last: nat): (r: Option<Target>)
    requires pos <= last && Ends(b, last)
    ensures r.Some? ==> pos < r.value.next <= last
  {
    if b[pos] == SLASH then
      var p := First(b, pos + 1, SpaceQuestionOrEnd, last);
      var path := Path(b, pos, p, NONE);
      if b[p] == QUESTION_MARK then
        var q := First(b, p + 1, SpaceOrEnd, last);
        Some(Target(path, Path(b, p + 1, q, NONE), if b[q] == SPACE then q + 1 else q))
      else Some(Target(path, [], if b[p] == SPACE then p + 1 else p))
    else if b[pos] == STAR && b[pos + 1] == SPACE then Some(Target([STAR], [], pos + 2))
    else None
  }

  /** HTTP/1. and one more byte in front of CR LF; the result is that byte. */
  function ParseVersion(b: seq<Byte>, pos: nat, last: nat): (r: Option<Byte>)
    requires pos <= last && Ends(b, last)
    ensures r.Some? ==> pos + 8 <= last
  {
    if Reads(b, pos, HTTP1, last) && b[pos + 8] == CR && b[pos + 9] == LF then Some(b[pos + 7]) else None
  }

  /** One header line, a new field or a continuation of `name`; then the position of the next line. */
  function ParseField(b: seq<Byte>, pos: nat, last: nat, name: seq<Byte>): (r: Option<(Field, nat)>)
    requires pos < last && Ends(b, last)
    ensures r.Some? ==> pos < r.value.1 <= last + 2
  {
    var named := !Blank(b[pos]);
    var p := if named then First(b, pos, TokenEnd, last) else pos;
    if named && b[p] != COLON then None
    else
      var v := First(b, p + 1, NotBlank, last);
      var q := First(b, v, ToCR, last);
      Some((Field(named, if named then b[pos..p] else name, b[v..q]), if b[q + 1] == LF then q + 2 else q))
  }

  function ParseFields(b: seq<Byte>, pos: nat, last: nat, name: seq<Byte>): Option<seq<Field>>
    requires Ends(b, last)
    decreases last + 2 - pos
  {
    if pos >= last then Some([])
    else match ParseField(b, pos, last, name)
         case None => None
         case Some((f, next)) =>
           match ParseFields(b, next, last, f.name)
           case None => None
           case Some(fs) => Some([f] + fs)
  }

  /** ParseHttpMethod, ParseHttpPath, ParseHttpProtocol and the SkipCrLf behind them. */
  datatype FirstLine = FirstLine(verb: seq<Byte>, target: Target, version: Byte)

  function RequestLine(b: seq<Byte>, start: nat, last: nat): (r: Option<FirstLine>)
    requires start <= last && Ends(b, last)
    ensures r.Some? ==> start < r.value.target.next && r.value.target.next + 8 <= last
  {
    var (m, pos) := Token(b, start, last);
    match ParseTarget(b, pos, last)
    case None => None
    case Some(t) =>
      match ParseVersion(b, t.next, last)
      case None => None
      case Some(v) => Some(FirstLine(m, t, v))
  }

  datatype Head = Head(
    verb: seq<Byte>, path: seq<Unit>, query: seq<Unit>, version: Byte, fields: seq<Field>, meaning: Meaning)

  const HTTP10_DIGIT: Byte := 48

  /** ParseRequest on the bytes from `start` to the end of the head; None where the source throws. */
  function ParseHead(b: seq<Byte>, start: nat, last: nat, parse: LengthParser): Option<Head>
    requires start <= last && Ends(b, last)
  {
    match RequestLine(b, start, last)
    case None => None
    case Some(line) =>
      match ParseFields(b, line.target.next + 10, last, [])
      case None => None
      case Some(fields) =>
        match Interpret(fields, line.version == HTTP10_DIGIT, parse)
        case None => None
        case Some(meaning) => Some(Head(line.verb, line.target.path, line.target.query, line.version, fields, meaning))
  }

  /** Where FindRequestEnd stops, a head may be parsed. */
  lemma FoundHeadEnds(b: seq<Byte>, start: nat, end: nat)
    requires start <= end <= |b| && Scan(0, b[start..end]) == end - start
    ensures end - start >= 4 && Ends(b, end - 2)
  {
    ScanSound(b[start..end]);
  }

  // ---------------------------------------------------------------------------------------
  // Rendering
  // ---------------------------------------------------------------------------------------

  /** A header line: name, colon, blanks, value; or, folded, a blank, more blanks and a further value. */
  datatype Line =
    | Named(name: seq<Byte>, blanks: seq<Byte>, value: seq<Byte>)
    | Folded(lead: Byte, blanks: seq<Byte>, value: seq<Byte>)

  /** A path with or without a query, or the asterisk. */
  datatype RequestTarget = PathTarget(path: seq<Piece>, query: Option<seq<Piece>>) | Asterisk

  datatype Request = Request(verb: seq<Byte>, target: RequestTarget, version: Byte, lines: seq<Line>)

  /** The bytes at which a part of the head ends, in numbers: CR, space, question mark, colon, tab. */
  predicate Bars(k: Stop, c: Byte) {
    match k
    case SpaceOrEnd => c == 13 || c == 32
    case SpaceQuestionOrEnd => c == 13 || c == 32 || c == 63
    case TokenEnd => c <= 32 || c == 58
    case ToCR => c == 13
    case NotBlank => c != 32 && c != 9
  }

  lemma StopsAtBars(k: Stop, c: Byte)
    ensures StopsAt(k, c) <==> Bars(k, c)
  {
  }

  /** No byte of `s` ends a part of this kind. */
  predicate Free(k: Stop, s: seq<Byte>) {
    forall i :: 0 <= i < |s| ==> !Bars(k, s[i])
  }

  predicate LegalLine(l: Line) {
    && Free(ToCR, l.value) && Free(NotBlank, l.blanks) && (l.value != [] ==> l.value[0] !in {9, 32})
    && (l.Named? ==> Free(TokenEnd, l.name))
    && (l.Folded? ==> l.lead in {9, 32})
  }

  predicate LegalTarget(t: RequestTarget) {
    t.PathTarget? ==>
      && LegalPieces(t.path) && Free(SpaceQuestionOrEnd, RenderAll(t.path))
      && RenderAll(t.path) != [] && RenderAll(t.path)[0] == SLASH
      && (t.query.Some? ==> LegalPieces(t.query.value) && Free(SpaceOrEnd, RenderAll(t.query.value)))
  }

  predicate LegalRequest(r: Request) {
    && Free(SpaceOrEnd, r.verb) && r.version != CR && LegalTarget(r.target)
    && forall i :: 0 <= i < |r.lines| ==> LegalLine(r.lines[i])
  }

  function LineHead(l: Line): (head: seq<Byte>)
    ensures head != []
  {
    if l.Named? then l.name + [COLON] else [l.lead]
  }

  function RenderLine(l: Line): seq<Byte> {
    LineHead(l) + l.blanks + l.value
  }

  function RenderLines(ls: seq<Line>): seq<Byte> {
    if ls == [] then [] else RenderLine(ls[0]) + CRLF + RenderLines(ls[1..])
  }

  function RenderTarget(t: RequestTarget): seq<Byte>
    requires LegalTarget(t)
  {
    match t
    case Asterisk => [STAR]
    case PathTarget(path, query) =>
      RenderAll(path) + if query.Some? then [QUESTION_MARK] + RenderAll(query.value) else []
  }

  function PathOf(t: RequestTarget): seq<Unit>
    requires LegalTarget(t)
  {
    if t.Asterisk? then [STAR] else MeaningAll(t.path)
  }

  function QueryOf(t: RequestTarget): seq<Unit>
    requires LegalTarget(t)
  {
    if t.PathTarget? && t.query.Some? then MeaningAll(t.query.value) else []
  }

  function RenderRequestLine(r: Request): seq<Byte>
    requires LegalRequest(r)
  {
    r.verb + [SPACE] + RenderTarget(r.target) + [SPACE] + HTTP1 + [r.version]
  }

  function RenderRequest(r: Request): seq<Byte>
    requires LegalRequest(r)
  {
    RenderRequestLine(r) + CRLF + RenderLines(r.lines) + CRLF
  }

  /** The fields meant by header lines; a folded line continues the field named last. */
  function FieldsOf(ls: seq<Line>, name: seq<Byte>): seq<Field> {
    if ls == [] then []
    else
      var n := if ls[0].Named? then ls[0].name else name;
      [Field(ls[0].Named?, n, ls[0].value)] + FieldsOf(ls[1..], n)
  }

  /** None if a Content-Length of the request is not a number. */
  function HeadOf(r: Request, parse: LengthParser): Option<Head>
    requires LegalRequest(r)
  {
    var fields := FieldsOf(r.lines, []);
    match Interpret(fields, r.version == HTTP10_DIGIT, parse)
    case None => None
    case Some(meaning) => Some(Head(r.verb, PathOf(r.target), QueryOf(r.target), r.version, fields, meaning))
  }

  // ---------------------------------------------------------------------------------------
  // The end of a rendered head is found
  // ---------------------------------------------------------------------------------------

  lemma {:induction false} ScanLine(q: nat, text: seq<Byte>, rest: seq<Byte>)
    requires Free(ToCR, text) && (q == 0 || (q == 2 && text != []))
    ensures Scan(q, text + CRLF + rest) == Shift(|text| + 2, Scan(2, rest))
    decreases |text|
  {
    var s := text + CRLF + rest;
    if text == [] {
      assert s[0] == CR && s[1..][0] == LF && s[1..][1..] == rest;
    } else {
      assert s[0] == text[0] && s[1..] == text[1..] + CRLF + rest;
      ScanLine(0, text[1..], rest);
    }
  }

  lemma {:induction false} ScanLines(ls: seq<Line>, after: seq<Byte>)
    requires forall i :: 0 <= i < |ls| ==> LegalLine(ls[i])
    ensures Scan(2, RenderLines(ls) + CRLF + after) == |RenderLines(ls)| + 2
    decreases |ls|
  {
    hide LegalLine, Scan;
    if ls == [] {
      var s := CRLF + after;
      assert [] + CRLF + after == s;
      ScanBlank(after);
    } else {
      var text, rest := RenderLine(ls[0]), RenderLines(ls[1..]);
      assert text + CRLF + rest + CRLF + after == text + CRLF + (rest + CRLF + after);
      LineIsFree(ls[0]);
      ScanLine(2, text, rest + CRLF + after);
      ScanLines(ls[1..], after);
    }
  }

  lemma ScanBlank(after: seq<Byte>)
    ensures Scan(2, CRLF + after) == 2
  {
    var s := CRLF + after;
    assert s[0] == CR && s[1..][0] == LF;
    assert Scan(4, s[1..][1..]) == 0;
    assert Scan(3, s[1..]) == 1;
  }

  lemma FreeConcat(k: Stop, s: seq<Byte>, t: seq<Byte>)
    requires Free(k, s) && Free(k, t)
    ensures Free(k, s + t)
  {
    hide Bars;
    forall i | 0 <= i < |s + t|
      ensures !Bars(k, (s + t)[i])
    {
      assert (s + t)[i] == if i < |s| then s[i] else t[i - |s|];
    }
  }

  lemma LineIsFree(l: Line)
    requires LegalLine(l)
    ensures Free(ToCR, RenderLine(l)) && RenderLine(l) != []
  {
    var head := LineHead(l);
    assert Free(ToCR, head) && Free(ToCR, l.blanks);
    FreeConcat(ToCR, head, l.blanks);
    FreeConcat(ToCR, head + l.blanks, l.value);
  }

  lemma RequestLineIsFree(r: Request)
    requires LegalRequest(r)
    ensures Free(ToCR, RenderRequestLine(r))
  {
    hide RenderAll, LegalPieces, LegalLine;
    assert Free(ToCR, RenderTarget(r.target));
  }

  /** FindRequestEnd consumes exactly the rendered head. */
  lemma RenderedEndIsFound(r: Request, after: seq<Byte>)
    requires LegalRequest(r)
    ensures Scan(0, RenderRequest(r) + after) == |RenderRequest(r)|
  {
    hide Scan, LegalRequest, RenderRequestLine, RenderLines;
    var line, rest := RenderRequestLine(r), RenderLines(r.lines);
    RequestLineIsFree(r);
    assert RenderRequest(r) + after == line + CRLF + (rest + CRLF + after);
    ScanLine(0, line, rest + CRLF + after);
    assert forall i :: 0 <= i < |r.lines| ==> LegalLine(r.lines[i]) by { LinesAreLegal(r); }
    ScanLines(r.lines, after);
  }

  lemma LinesAreLegal(r: Request)
    requires LegalRequest(r)
    ensures forall i :: 0 <= i < |r.lines| ==> LegalLine(r.lines[i])
  {
  }

  // ---------------------------------------------------------------------------------------
  // What is refused
  // ---------------------------------------------------------------------------------------

  /** A name and a colon stand at the beginning of a line. */
  predicate BeginsWithName(line: seq<Byte>) {
    exists i :: 0 <= i < |line| && line[i] == 58 && forall j :: 0 <= j < i ==> line[j] > 32 && line[j] != 58
  }

  /** A header line is refused exactly if it neither begins with a name and a colon nor is folded. */
  lemma LineIsRefused(b: seq<Byte>, pos: nat, last: nat, name: seq<Byte>, line: seq<Byte>)
    requires Ends(b, last) && pos < last && pos + |line| <= last && Free(ToCR, line)
    requires b[pos..pos + |line|] == line && b[pos + |line|] == 13
    ensures ParseField(b, pos, last, name).None? <==> !(line != [] && line[0] in {9, 32}) && !BeginsWithName(line)
  {
    hide First;
    FieldFails(b, pos, last, name);
    if line == [] {
      FirstIs(b, pos, TokenEnd, last, pos);
    } else if line[0] !in {9, 32} {
      var p := First(b, pos, TokenEnd, last);
      assert forall k :: 0 <= k < |line| ==> b[pos + k] == line[k];
      if p <= pos + |line| && BeginsWithName(line) {
        var i :| 0 <= i < |line| && line[i] == 58 && forall j :: 0 <= j < i ==> line[j] > 32 && line[j] != 58;
        FirstIs(b, pos, TokenEnd, last, pos + i);
      }
      if b[p] == COLON && p < pos + |line| {
        assert line[p - pos] == 58;
        assert BeginsWithName(line);
      }
    }
  }

  /** Nothing but a path and the asterisk is a target; nothing but HTTP/1.x in front of the line end is a version. */
  lemma FirstLineIsRefused(b: seq<Byte>, pos: nat, last: nat)
    requires Ends(b, last) && pos <= last
    ensures ParseTarget(b, pos, last).None? <==> b[pos] != 47 && !(b[pos] == 42 && b[pos + 1] == 32)
    ensures ParseVersion(b, pos, last).Some? <==>
            pos + 8 <= last && b[pos..pos + 7] == [72, 84, 84, 80, 47, 49, 46] && b[pos + 8] == 13 && b[pos + 9] == 10
  {
    hide First, Path, Reads;
    assert HTTP1 == [72, 84, 84, 80, 47, 49, 46] && CR !in HTTP1;
    if pos + 8 <= last && b[pos..pos + 7] == HTTP1 {
      ReadsAt(b, pos, HTTP1, last);
    }
  }

  // ---------------------------------------------------------------------------------------
  // A rendered head is parsed
  // ---------------------------------------------------------------------------------------

  /** Text at a place of the buffer. */
  predicate At(b: seq<Byte>, pos: nat, text: seq<Byte>) {
    pos + |text| <= |b| && b[pos..pos + |text|] == text
  }

  lemma AtSplit(b: seq<Byte>, pos: nat, s: seq<Byte>, t: seq<Byte>)
    requires At(b, pos, s + t)
    ensures At(b, pos, s) && At(b, pos + |s|, t)
  {
    Cut(b, pos, s, t);
  }

  /** A scan over text that does not stop it ends right behind. */
  lemma FirstBehind(b: seq<Byte>, pos: nat, text: seq<Byte>, k: Stop, last: nat)
    requires Ends(b, last) && At(b, pos, text) && Free(k, text)
    requires pos + |text| <= last && StopsAt(k, b[pos + |text|])
    ensures First(b, pos, k, last) == pos + |text|
  {
    forall j | pos <= j < pos + |text|
      ensures !StopsAt(k, b[j])
    {
      assert b[j] == b[pos..pos + |text|][j - pos];
      StopsAtBars(k, b[j]);
    }
    FirstIs(b, pos, k, last, pos + |text|);
  }

  lemma NameParses(b: seq<Byte>, pos: nat, last: nat, l: Line)
    requires Ends(b, last) && LegalLine(l) && At(b, pos, LineHead(l)) && pos + |LineHead(l)| <= last
    ensures Blank(b[pos]) <==> l.Folded?
    ensures l.Named? ==> First(b, pos, TokenEnd, last) == pos + |l.name|
                         && b[pos + |l.name|] == COLON && b[pos..pos + |l.name|] == l.name
  {
    hide First;
    var head := b[pos..pos + |LineHead(l)|];
    assert b[pos] == head[0];
    if l.Named? {
      AtSplit(b, pos, l.name, [COLON]);
      assert b[pos + |l.name|] == head[|l.name|];
      FirstBehind(b, pos, l.name, TokenEnd, last);
    }
  }

  lemma ValueParses(b: seq<Byte>, v0: nat, last: nat, l: Line)
    requires Ends(b, last) && LegalLine(l) && At(b, v0, l.blanks + l.value + CRLF)
    requires v0 + |l.blanks| + |l.value| + 2 <= last
    ensures var v := First(b, v0, NotBlank, last);
            var q := First(b, v, ToCR, last);
            v == v0 + |l.blanks| && b[v..q] == l.value && q == v + |l.value| && b[q + 1] == LF
  {
    hide First;
    var v := v0 + |l.blanks|;
    var q := v + |l.value|;
    AtSplit(b, v0, l.blanks + l.value, CRLF);
    AtSplit(b, v0, l.blanks, l.value);
    assert b[q] == b[q..q + 2][0] && b[q + 1] == b[q..q + 2][1];
    if l.value != [] {
      assert b[v] == b[v..q][0];
    }
    FirstBehind(b, v0, l.blanks, NotBlank, last);
    FirstBehind(b, v, l.value, ToCR, last);
  }

  lemma FieldParses(b: seq<Byte>, pos: nat, last: nat, name: seq<Byte>, l: Line)
    requires Ends(b, last) && LegalLine(l)
    requires At(b, pos, RenderLine(l) + CRLF) && pos + |RenderLine(l)| + 2 <= last
    ensures ParseField(b, pos, last, name) ==
            Some((Field(l.Named?, if l.Named? then l.name else name, l.value), pos + |RenderLine(l)| + 2))
  {
    hide First, LegalLine, At, Free, StopsAt, Blank, RenderLine, ParseField;
    LineSplits(l);
    AtSplit(b, pos, LineHead(l), l.blanks + l.value + CRLF);
    NameParses(b, pos, last, l);
    var p := pos + |LineHead(l)| - 1;
    ValueParses(b, p + 1, last, l);
    var v := First(b, p + 1, NotBlank, last);
    var q := First(b, v, ToCR, last);
    FieldIs(b, pos, last, name, p, v, q, if l.Named? then l.name else name, l.value);
  }

  lemma LineSplits(l: Line)
    ensures RenderLine(l) + CRLF == LineHead(l) + (l.blanks + l.value + CRLF)
    ensures |RenderLine(l)| == |LineHead(l)| + |l.blanks| + |l.value|
  {
  }

  lemma FieldIs(b: seq<Byte>, pos: nat, last: nat, name: seq<Byte>, p: nat, v: nat, q: nat,
                name': seq<Byte>, value: seq<Byte>)
    requires Ends(b, last) && pos < last && pos <= p < last
    requires if Blank(b[pos]) then p == pos && name' == name
             else p == First(b, pos, TokenEnd, last) && b[p] == COLON && b[pos..p] == name'
    requires v == First(b, p + 1, NotBlank, last) && q == First(b, v, ToCR, last)
    requires b[v..q] == value
    ensures ParseField(b, pos, last, name) ==
            Some((Field(!Blank(b[pos]), name', value), if b[q + 1] == LF then q + 2 else q))
  {
    hide First, Blank;
  }

  lemma FieldFails(b: seq<Byte>, pos: nat, last: nat, name: seq<Byte>)
    requires Ends(b, last) && pos < last
    ensures ParseField(b, pos, last, name).None? <==>
            !Blank(b[pos]) && b[First(b, pos, TokenEnd, last)] != COLON
  {
    hide First, Blank;
  }

  lemma {:induction false} FieldsParse(b: seq<Byte>, pos: nat, last: nat, name: seq<Byte>, ls: seq<Line>)
    requires Ends(b, last) && pos + |RenderLines(ls)| == last && At(b, pos, RenderLines(ls))
    requires forall i :: 0 <= i < |ls| ==> LegalLine(ls[i])
    ensures ParseFields(b, pos, last, name) == Some(FieldsOf(ls, name))
    decreases |ls|
  {
    hide LegalLine, RenderLine, ParseField;
    if ls != [] {
      AtSplit(b, pos, RenderLine(ls[0]) + CRLF, RenderLines(ls[1..]));
      FieldParses(b, pos, last, name, ls[0]);
      FieldsParse(b, pos + |RenderLine(ls[0])| + 2, last, if ls[0].Named? then ls[0].name else name, ls[1..]);
    }
  }

  lemma TokenParses(b: seq<Byte>, pos: nat, last: nat, verb: seq<Byte>)
    requires Ends(b, last) && Free(SpaceOrEnd, verb) && At(b, pos, verb + [SPACE]) && pos + |verb| < last
    ensures First(b, pos, SpaceOrEnd, last) == pos + |verb| && b[pos + |verb|] == SPACE
    ensures Token(b, pos, last) == (verb, pos + |verb| + 1)
  {
    AtSplit(b, pos, verb, [SPACE]);
    assert b[pos + |verb|] == b[pos + |verb|..pos + |verb| + 1][0];
    FirstBehind(b, pos, verb, SpaceOrEnd, last);
  }

  lemma PathParses(b: seq<Byte>, pos: nat, last: nat, ps: seq<Piece>, stop: Byte)
    requires Ends(b, last) && LegalPieces(ps) && At(b, pos, RenderAll(ps) + [stop]) && pos + |RenderAll(ps)| < last
    requires stop == SPACE || stop == QUESTION_MARK
    ensures var p := pos + |RenderAll(ps)|;
            b[p] == stop && b[pos..p] == RenderAll(ps) && Path(b, pos, p, NONE) == MeaningAll(ps)
  {
    hide RenderAll, MeaningAll, Path, Legal;
    AtSplit(b, pos, RenderAll(ps), [stop]);
    var p := pos + |RenderAll(ps)|;
    assert b[p] == b[p..p + 1][0];
    PathDecodes(b, pos, p, ps);
  }

  /** The path starts with a slash and ends at the first space or question mark. */
  lemma PathEnds(b: seq<Byte>, pos: nat, last: nat, text: seq<Byte>)
    requires Ends(b, last) && At(b, pos, text) && pos + |text| < last
    requires text != [] && text[0] == SLASH && Free(SpaceQuestionOrEnd, text)
    requires b[pos + |text|] == SPACE || b[pos + |text|] == QUESTION_MARK
    ensures b[pos] == SLASH && First(b, pos + 1, SpaceQuestionOrEnd, last) == pos + |text|
  {
    hide First, StopsAt;
    assert text == [text[0]] + text[1..];
    AtSplit(b, pos, [text[0]], text[1..]);
    assert b[pos] == b[pos..pos + 1][0];
    assert Free(SpaceQuestionOrEnd, text[1..]);
    assert StopsAt(SpaceQuestionOrEnd, SPACE) && StopsAt(SpaceQuestionOrEnd, QUESTION_MARK) by {
      StopsAtSpace();
    }
    FirstBehind(b, pos + 1, text[1..], SpaceQuestionOrEnd, last);
  }

  lemma StopsAtSpace()
    ensures StopsAt(SpaceQuestionOrEnd, SPACE) && StopsAt(SpaceQuestionOrEnd, QUESTION_MARK)
  {
  }

  lemma AsteriskParses(b: seq<Byte>, pos: nat, last: nat)
    requires Ends(b, last) && At(b, pos, [STAR] + [SPACE]) && pos + 1 < last
    ensures ParseTarget(b, pos, last) == Some(Target([STAR], [], pos + 2))
  {
    assert b[pos] == b[pos..pos + 2][0] && b[pos + 1] == b[pos..pos + 2][1];
  }

  lemma PathTargetParses(b: seq<Byte>, pos: nat, last: nat, path: seq<Piece>)
    requires Ends(b, last) && LegalTarget(PathTarget(path, None))
    requires At(b, pos, RenderAll(path) + [SPACE]) && pos + |RenderAll(path)| < last
    ensures ParseTarget(b, pos, last) == Some(Target(MeaningAll(path), [], pos + |RenderAll(path)| + 1))
  {
    hide RenderAll, MeaningAll, Path, LegalPieces, First, StopsAt;
    AtSplit(b, pos, RenderAll(path), [SPACE]);
    PathParses(b, pos, last, path, SPACE);
    PathEnds(b, pos, last, RenderAll(path));
  }

  lemma QueryTargetParses(b: seq<Byte>, pos: nat, last: nat, path: seq<Piece>, query: seq<Piece>)
    requires Ends(b, last) && LegalTarget(PathTarget(path, Some(query)))
    requires At(b, pos, RenderAll(path) + [QUESTION_MARK] + (RenderAll(query) + [SPACE]))
    requires pos + |RenderAll(path)| + 1 + |RenderAll(query)| < last
    ensures ParseTarget(b, pos, last) ==
            Some(Target(MeaningAll(path), MeaningAll(query), pos + |RenderAll(path)| + |RenderAll(query)| + 2))
  {
    hide *;
    QueryIsLegal(path, query);
    var text, rest := RenderAll(path), RenderAll(query);
    var p := pos + |text|;
    AtSplit(b, pos, text + [QUESTION_MARK], rest + [SPACE]);
    AtSplit(b, pos, text, [QUESTION_MARK]);
    PathParses(b, pos, last, path, QUESTION_MARK);
    PathEnds(b, pos, last, text);
    PathParses(b, p + 1, last, query, SPACE);
    TokenParses(b, p + 1, last, rest);
    TargetIs(b, pos, last, p, p + 1 + |rest|);
  }

  lemma QueryIsLegal(path: seq<Piece>, query: seq<Piece>)
    requires LegalTarget(PathTarget(path, Some(query)))
    ensures LegalPieces(path) && LegalPieces(query)
    ensures var text := RenderAll(path);
            text != [] && text[0] == SLASH && Free(SpaceQuestionOrEnd, text) && Free(SpaceOrEnd, RenderAll(query))
  {
    hide RenderAll, LegalPieces;
  }

  lemma TargetIs(b: seq<Byte>, pos: nat, last: nat, p: nat, q: nat)
    requires Ends(b, last) && pos < p < q < last && b[pos] == SLASH
    requires First(b, pos + 1, SpaceQuestionOrEnd, last) == p && b[p] == QUESTION_MARK
    requires First(b, p + 1, SpaceOrEnd, last) == q && b[q] == SPACE
    ensures ParseTarget(b, pos, last) == Some(Target(Path(b, pos, p, NONE), Path(b, p + 1, q, NONE), q + 1))
  {
    hide First, StopsAt, Path;
  }

  lemma TargetParses(b: seq<Byte>, pos: nat, last: nat, t: RequestTarget)
    requires Ends(b, last) && LegalTarget(t)
    requires At(b, pos, RenderTarget(t) + [SPACE]) && pos + |RenderTarget(t)| < last
    ensures ParseTarget(b, pos, last) == Some(Target(PathOf(t), QueryOf(t), pos + |RenderTarget(t)| + 1))
  {
    hide RenderAll, MeaningAll, ParseTarget, LegalPieces;
    match t {
      case Asterisk =>
        AsteriskParses(b, pos, last);
      case PathTarget(path, None) =>
        assert RenderTarget(t) == RenderAll(path);
        PathTargetParses(b, pos, last, path);
      case PathTarget(path, Some(query)) =>
        assert RenderTarget(t) + [SPACE] == RenderAll(path) + [QUESTION_MARK] + (RenderAll(query) + [SPACE]);
        QueryTargetParses(b, pos, last, path, query);
    }
  }

  lemma {:induction false} ReadsAt(b: seq<Byte>, p: nat, word: seq<Byte>, last: nat)
    requires Ends(b, last) && At(b, p, word) && CR !in word && p + |word| <= last
    ensures Reads(b, p, word, last)
    decreases |word|
  {
    if word != [] {
      assert word == [word[0]] + word[1..];
      AtSplit(b, p, [word[0]], word[1..]);
      assert b[p] == b[p..p + 1][0];
      ReadsAt(b, p + 1, word[1..], last);
    }
  }

  lemma VersionParses(b: seq<Byte>, pos: nat, last: nat, version: Byte)
    requires Ends(b, last) && At(b, pos, HTTP1 + [version] + CRLF) && pos + 8 <= last
    ensures ParseVersion(b, pos, last) == Some(version)
  {
    hide Reads;
    var text := b[pos..pos + 10];
    assert b[pos + 7] == text[7] && b[pos + 8] == text[8] && b[pos + 9] == text[9];
    AtSplit(b, pos, HTTP1 + [version], CRLF);
    AtSplit(b, pos, HTTP1, [version]);
    ReadsAt(b, pos, HTTP1, last);
  }

  lemma RenderSplits(r: Request)
    requires LegalRequest(r)
    ensures RenderRequest(r) ==
            (r.verb + [SPACE]) + ((RenderTarget(r.target) + [SPACE]) +
                                  ((HTTP1 + [r.version] + CRLF) + (RenderLines(r.lines) + CRLF)))
  {
    hide LegalRequest, RenderTarget, RenderLines;
  }

  /** Where four parts and the final line end lie. */
  lemma FourParts(b: seq<Byte>, start: nat, s: seq<Byte>, t: seq<Byte>, u: seq<Byte>, v: seq<Byte>)
    requires At(b, start, s + (t + (u + (v + CRLF))))
    ensures At(b, start, s) && At(b, start + |s|, t) && At(b, start + |s| + |t|, u)
    ensures At(b, start + |s| + |t| + |u|, v) && Ends(b, start + |s| + |t| + |u| + |v|)
  {
    AtSplit(b, start, s, t + (u + (v + CRLF)));
    AtSplit(b, start + |s|, t, u + (v + CRLF));
    AtSplit(b, start + |s| + |t|, u, v + CRLF);
    AtSplit(b, start + |s| + |t| + |u|, v, CRLF);
    var last := start + |s| + |t| + |u| + |v|;
    assert b[last] == b[last..last + 2][0] && b[last + 1] == b[last..last + 2][1];
  }

  /** Where the parts of a rendered head lie. */
  lemma PartsOfHead(b: seq<Byte>, start: nat, r: Request)
    requires LegalRequest(r) && At(b, start, RenderRequest(r))
    ensures var last := start + |RenderRequest(r)| - 2;
            var pos1 := start + |r.verb| + 1;
            var pos2 := pos1 + |RenderTarget(r.target)| + 1;
            && pos2 + 10 + |RenderLines(r.lines)| == last && Ends(b, last)
            && At(b, start, r.verb + [SPACE])
            && At(b, pos1, RenderTarget(r.target) + [SPACE])
            && At(b, pos2, HTTP1 + [r.version] + CRLF)
            && At(b, pos2 + 10, RenderLines(r.lines))
  {
    TargetIsLegal(r);
    hide *;
    var version := HTTP1 + [r.version] + CRLF;
    assert |version| == 10;
    RenderSplits(r);
    FourParts(b, start, r.verb + [SPACE], RenderTarget(r.target) + [SPACE], version, RenderLines(r.lines));
  }

  lemma TargetIsLegal(r: Request)
    requires LegalRequest(r)
    ensures LegalTarget(r.target)
  {
  }

  lemma HeadParses(b: seq<Byte>, start: nat, r: Request, parse: LengthParser)
    requires LegalRequest(r) && At(b, start, RenderRequest(r))
    ensures |RenderRequest(r)| >= 2 && Ends(b, start + |RenderRequest(r)| - 2)
    ensures ParseHead(b, start, start + |RenderRequest(r)| - 2, parse) == HeadOf(r, parse)
  {
    hide LegalRequest, RenderTarget, RenderLines, RenderRequest, ParseFields, ParseTarget, ParseVersion, Token;
    hide PathOf, QueryOf, FieldsOf, At, Interpret, LegalTarget;
    TargetIsLegal(r);
    PartsOfHead(b, start, r);
    var last := start + |RenderRequest(r)| - 2;
    var pos1 := start + |r.verb| + 1;
    var pos2 := pos1 + |RenderTarget(r.target)| + 1;
    VerbIsFree(r);
    TokenParses(b, start, last, r.verb);
    TargetParses(b, pos1, last, r.target);
    VersionParses(b, pos2, last, r.version);
    LinesAreLegal(r);
    FieldsParse(b, pos2 + 10, last, [], r.lines);
  }

  /**
   * Print and parse: a rendered head, whatever stands before and behind it in the buffer, is found by
   * FindRequestEnd with its exact length and read back part by part.
   */
  lemma HeadRoundTrip(before: seq<Byte>, r: Request, after: seq<Byte>, parse: LengthParser)
    requires LegalRequest(r)
    ensures var b := before + RenderRequest(r) + after;
            var end := |before| + |RenderRequest(r)|;
            && Shift(|before|, Scan(0, b[|before|..])) == end
            && |before| <= end - 2 && Ends(b, end - 2)
            && ParseHead(b, |before|, end - 2, parse) == HeadOf(r, parse)
  {
    hide Scan, LegalRequest, RenderRequest, ParseHead, HeadOf;
    var start, text := |before|, RenderRequest(r);
    var b := before + text + after;
    RenderedEndIsFound(r, after);
    assert b[start..] == text + after;
    assert b[start..start + |text|] == text;
    HeadParses(b, start, r, parse);
  }

  /** The same header lines, each name in some case of its own. */
  predicate LinesRespelled(ls: seq<Line>, ks: seq<Line>) {
    |ls| == |ks| && forall i :: 0 <= i < |ls| ==> LineRespelled(ls[i], ks[i])
  }

  predicate LineRespelled(l: Line, k: Line) {
    if l.Folded? then l == k else k.Named? && k == l.(name := k.name) && SameText(l.name, k.name)
  }

  lemma {:induction false} FieldsRespelled(ls: seq<Line>, ks: seq<Line>, name: seq<Byte>, name': seq<Byte>)
    requires LinesRespelled(ls, ks) && SameText(name, name')
    ensures Respelled(FieldsOf(ls, name), FieldsOf(ks, name'))
    decreases |ls|
  {
    hide SameText;
    if ls != [] {
      FieldsRespelled(ls[1..], ks[1..], if ls[0].Named? then ls[0].name else name,
                      if ks[0].Named? then ks[0].name else name');
    }
  }

  /**
   * A client may spell the names of its headers as it likes: what the parser reads from the rendered
   * request means the same, refused or not, and gives the same dictionary.
   */
  lemma RespelledRequest(r: Request, lines: seq<Line>, after: seq<Byte>, parse: LengthParser)
    requires LegalRequest(r) && LegalRequest(r.(lines := lines)) && LinesRespelled(r.lines, lines)
    ensures var s, t := RenderRequest(r), RenderRequest(r.(lines := lines));
            && |s| == |t| >= 2 && Ends(s + after, |s| - 2) && Ends(t + after, |t| - 2)
            && var h, k := ParseHead(s + after, 0, |s| - 2, parse), ParseHead(t + after, 0, |t| - 2, parse);
               && (h.None? <==> k.None?)
               && (h.Some? ==> k.value == h.value.(fields := k.value.fields)
                               && AddAll(map[], h.value.fields) == AddAll(map[], k.value.fields))
  {
    hide LegalRequest, RenderRequest, ParseHead, Interpret, FieldsOf, Scan, AddAll, PathOf, QueryOf, Respelled;
    var q := r.(lines := lines);
    HeadRoundTrip([], r, after, parse);
    HeadRoundTrip([], q, after, parse);
    assert [] + RenderRequest(r) == RenderRequest(r) && [] + RenderRequest(q) == RenderRequest(q);
    SameLengths(r, lines);
    FieldsRespelled(r.lines, lines, [], []);
    RespelledMeansTheSame(FieldsOf(r.lines, []), FieldsOf(lines, []), r.version == HTTP10_DIGIT, parse);
    TargetIsLegal(r);
  }

  lemma SameLengths(r: Request, lines: seq<Line>)
    requires LegalRequest(r) && LegalRequest(r.(lines := lines)) && LinesRespelled(r.lines, lines)
    ensures |RenderRequest(r)| == |RenderRequest(r.(lines := lines))|
  {
    hide RenderTarget, LegalLine, LegalTarget;
    LinesAreAsLong(r.lines, lines);
  }

  lemma {:induction false} LinesAreAsLong(ls: seq<Line>, ks: seq<Line>)
    requires LinesRespelled(ls, ks)
    ensures |RenderLines(ls)| == |RenderLines(ks)|
    decreases |ls|
  {
    if ls != [] {
      LinesAreAsLong(ls[1..], ks[1..]);
    }
  }

  lemma VerbIsFree(r: Request)
    requires LegalRequest(r)
    ensures Free(SpaceOrEnd, r.verb)
  {
  }
}
