/** The request parser in place (Nowin/Transport2HttpHandler.cs:115-355, 480-574, Nowin/OwinHandler.cs:174-187). */
module RequestParser {
  import opened Bytes
  import opened ParsePath
  import opened RequestHead
  import opened RequestHeaders

  /** The methods ParseHttpMethod knows, each with the space behind it. */
  const GET: seq<Byte> := [71, 69, 84, 32]
  const POST: seq<Byte> := [80, 79, 83, 84, 32]
  const PUT: seq<Byte> := [80, 85, 84, 32]
  const HEAD: seq<Byte> := [72, 69, 65, 68, 32]
  const DELETE: seq<Byte> := [68, 69, 76, 69, 84, 69, 32]
  const TRACE: seq<Byte> := [84, 82, 65, 67, 69, 32]
  const OPTIONS: seq<Byte> := [79, 80, 84, 73, 79, 78, 83, 32]
  const KNOWN: seq<seq<Byte>> := [GET, POST, PUT, HEAD, DELETE, TRACE, OPTIONS]

  /** A word of the list: text without a space or CR, and one space behind it. */
  predicate Word(w: seq<Byte>) {
    w != [] && w[|w| - 1] == SPACE && Free(SpaceOrEnd, w[..|w| - 1]) && CR !in w
  }

  lemma KnownAreWords()
    ensures forall i :: 0 <= i < |KNOWN| ==> Word(KNOWN[i])
  {
    assert Word(GET) && Word(POST) && Word(PUT) && Word(HEAD) && Word(DELETE) && Word(TRACE) && Word(OPTIONS);
  }

  /** Some(done + r), or None. */
  function Preceded(done: seq<Field>, r: Option<seq<Field>>): Option<seq<Field>> {
    match r
    case None => None
    case Some(fs) => Some(done + fs)
  }

  class RequestParser {
    const chs: array<Unit>          // the char buffer shared by all parsers of a thread
    const parse: LengthParser
    var requestMethod: seq<Byte>
    var requestPath: seq<Unit>
    var requestQueryString: seq<Unit>
    var requestProtocol: seq<Byte>
    var isHttp10: bool
    var isMethodHead: bool
    var reqHeaders: Headers
    var isKeepAlive: bool
    var shouldSend100Continue: bool
    var requestContentLength: nat
    var requestIsChunked: bool
    var ask: WebSocketAsk           // _webSocketReqCondition and _webSocketKey

    ghost function Meant(): Meaning
      reads this
    {
      Meaning(isKeepAlive, shouldSend100Continue, requestContentLength, requestIsChunked, ask)
    }

    /** As many chars as a receive buffer has bytes. */
    constructor (receiveBufferSize: nat, parse: LengthParser)
      ensures this.chs.Length == receiveBufferSize && this.parse == parse && reqHeaders == map[]
    {
      chs := new Unit[receiveBufferSize](_ => 0);
      this.parse := parse;
      requestMethod, requestPath, requestQueryString, requestProtocol := [], [], [], [];
      isHttp10, isMethodHead, reqHeaders := false, false, map[];
      isKeepAlive, shouldSend100Continue, requestContentLength, requestIsChunked := false, false, 0, false;
      ask := WebSocketAsk(false, false, false, None);
    }

    method SearchFor(buffer: array<Byte>, pos: nat, k: Stop, ghost last: nat) returns (p: nat)
      requires Ends(buffer[..], last) && pos <= last
      ensures p == First(buffer[..], pos, k, last)
    {
      hide StopsAt;
      p := pos;
      while !StopsAt(k, buffer[p])
        invariant pos <= p <= last && First(buffer[..], pos, k, last) == First(buffer[..], p, k, last)
        decreases last - p
      {
        assert StopsAt(k, CR) by { CrStops(k); }
        p := p + 1;
      }
    }

    method Reads(buffer: array<Byte>, pos: nat, word: seq<Byte>, ghost last: nat) returns (found: bool)
      requires Ends(buffer[..], last) && pos <= last && CR !in word
      ensures found == RequestHead.Reads(buffer[..], pos, word, last)
    {
      var i := 0;
      while i < |word|
        invariant i <= |word| && pos + i <= last
        invariant RequestHead.Reads(buffer[..], pos, word, last)
               == RequestHead.Reads(buffer[..], pos + i, word[i..], last)
      {
        if buffer[pos + i] != word[i] {
          return false;
        }
        i := i + 1;
      }
      return true;
    }

    method StringFromLatin1(buffer: array<Byte>, start: nat, end: nat) returns (text: seq<Byte>)
      requires start <= end <= buffer.Length && end - start <= chs.Length
      modifies chs
      ensures text == buffer[start..end]
    {
      var len := end - start;
      for i := 0 to len
        invariant forall k :: 0 <= k < i ==> chs[k] == buffer[start + k]
      {
        chs[i] := buffer[start + i];
      }
      text := seq(len, i requires 0 <= i < len reads chs, buffer
                       requires chs[i] == buffer[start + i] => chs[i]);
    }

    /**
     * The fast path compares with the methods it knows, the slow one scans; both find the text up to
     * the first space or line end.
     */
    method ParseHttpMethod(buffer: array<Byte>, pos: nat, ghost last: nat) returns (verb: seq<Byte>, pos': nat)
      requires Ends(buffer[..], last) && pos <= last && last - pos <= chs.Length
      modifies chs, this`isMethodHead
      ensures (verb, pos') == Token(buffer[..], pos, last)
      ensures isMethodHead <==> old(isMethodHead) || RequestHead.Reads(buffer[..], pos, HEAD, last)
    {
      hide RequestHead.Reads, First, Word;
      KnownAreWords();
      for i := 0 to |KNOWN|
        invariant isMethodHead == old(isMethodHead)
        invariant i > 3 ==> !RequestHead.Reads(buffer[..], pos, HEAD, last)
      {
        assert CR !in KNOWN[i] by { WordsHaveNoCR(KNOWN[i]); }
        var found := Reads(buffer, pos, KNOWN[i], last);
        if found {
          TokenOfWord(buffer[..], pos, last, KNOWN[i]);
          if i == 3 {
            isMethodHead := true;
          } else {
            DifferentWords(buffer[..], pos, last, i);
          }
          return KNOWN[i][..|KNOWN[i]| - 1], pos + |KNOWN[i]|;
        }
      }
      if buffer[pos] == SPACE {
        FirstIs(buffer[..], pos, SpaceOrEnd, last, pos);
        return [], pos + 1;
      }
      if buffer[pos] == CR {
        FirstIs(buffer[..], pos, SpaceOrEnd, last, pos);
        return [], pos;
      }
      var p := SearchFor(buffer, pos + 1, SpaceOrEnd, last);
      FirstIs(buffer[..], pos, SpaceOrEnd, last, p);
      pos' := if buffer[p] == SPACE then p + 1 else p;
      verb := StringFromLatin1(buffer, pos, p);
    }

    method ParseHttpPath(buffer: array<Byte>, pos: nat, ghost last: nat) returns (ok: bool, pos': nat)
      requires Ends(buffer[..], last) && pos <= last && last + 1 - pos <= chs.Length
      modifies chs, this`requestPath, this`requestQueryString
      ensures ok <==> ParseTarget(buffer[..], pos, last).Some?
      ensures ok ==> Target(requestPath, requestQueryString, pos') == ParseTarget(buffer[..], pos, last).value
    {
      hide First, Path;
      pos' := pos;
      if buffer[pos] == SLASH {
        var p := SearchFor(buffer, pos + 1, SpaceQuestionOrEnd, last);
        requestPath := PathString(buffer, pos, p);
        requestQueryString := [];
        pos' := if buffer[p] == SPACE then p + 1 else p;
        if buffer[p] == QUESTION_MARK {
          var start := p + 1;
          p := SearchFor(buffer, start, SpaceOrEnd, last);
          requestQueryString := PathString(buffer, start, p);
          pos' := if buffer[p] == SPACE then p + 1 else p;
        }
        return true, pos';
      }
      if buffer[pos] == STAR && buffer[pos + 1] == SPACE {
        requestPath := [STAR];
        requestQueryString := [];
        return true, pos + 2;
      }
      return false, pos;
    }

    method PathString(buffer: array<Byte>, start: nat, end: nat) returns (text: seq<Unit>)
      requires start <= end && Delimited(buffer[..], end) && end + 1 - start <= chs.Length
      modifies chs
      ensures text == Path(buffer[..], start, end, NONE)
    {
      var used := ParsePath.ParsePath(buffer, start, end, chs);
      text := chs[..used];
    }

    /** ParseHttpProtocol and the SkipCrLf behind it. */
    method ParseHttpProtocol(buffer: array<Byte>, pos: nat, ghost last: nat) returns (ok: bool, pos': nat)
      requires Ends(buffer[..], last) && pos <= last && last - pos <= chs.Length
      modifies chs, this`requestProtocol, this`isHttp10
      ensures ok <==> ParseVersion(buffer[..], pos, last).Some?
      ensures ok ==> var v := ParseVersion(buffer[..], pos, last).value;
                     requestProtocol == HTTP1 + [v] && isHttp10 == (v == 48) && pos' == pos + 10
    {
      hide RequestHead.Reads;
      pos' := pos;
      var found := Reads(buffer, pos, HTTP1, last);
      if !found || buffer[pos + 8] != CR {
        return false, pos;
      }
      assert buffer[pos..pos + 8] == HTTP1 + [buffer[pos + 7]];
      requestProtocol := StringFromLatin1(buffer, pos, pos + 8);
      isHttp10 := buffer[pos + 7] == 48;
      if buffer[pos + 9] != LF {
        return false, pos;
      }
      return true, pos + 10;
    }

    method AddRequestHeader(name: seq<Byte>, value: seq<Byte>, ghost named: bool)
      modifies this`reqHeaders
      ensures reqHeaders == Added(old(reqHeaders), Field(named, name, value))
    {
      var key := Canonical(name);
      if key in reqHeaders {
        reqHeaders := reqHeaders[key := reqHeaders[key] + [value]];
      } else {
        reqHeaders := reqHeaders[key := [value]];
      }
      assert [] + [value] == [value];
    }

    /** The looks ProcessRequestHeader takes at a field; false where it throws. */
    method ProcessRequestHeader(name: seq<Byte>, value: seq<Byte>) returns (ok: bool)
      modifies this`isKeepAlive, this`shouldSend100Continue, this`requestContentLength, this`requestIsChunked
      modifies this`ask
      ensures var r := Process(old(Meant()), Field(true, name, value), isHttp10, parse);
              (ok <==> r.Some?) && (ok ==> r == Some(Meant()))
    {
      hide Same, Mentions, Latin1;
      if Same(name, "Connection") {
        if isHttp10 {
          if Same(value, "Keep-Alive") {
            isKeepAlive := true;
          }
        } else {
          if Same(value, "Close") {
            isKeepAlive := false;
          } else if Mentions(value, "Upgrade") {
            ask := ask.(upgrades := true);
          }
        }
      } else if Same(name, "Expect") {
        if Same(value, "100-Continue") {
          shouldSend100Continue := true;
        }
      } else if Same(name, "Content-Length") {
        match parse(value) {
          case None =>
            requestContentLength := 0;
            return false;
          case Some(n) =>
            requestContentLength := n;
        }
      } else if Same(name, "Transfer-Encoding") {
        if Same(value, "chunked") {
          requestIsChunked := true;
          requestContentLength := ULONG_MAX;
        }
      } else if Same(name, "Upgrade") {
        if Same(value, "websocket") {
          ask := ask.(webSocket := true);
        }
      } else if Same(name, "Sec-WebSocket-Version") {
        if value == Latin1("13") {
          ask := ask.(version13 := true);
        }
      } else if Same(name, "Sec-WebSocket-Key") {
        ask := ask.(key := Some(value));
      }
      return true;
    }

    /** One turn of ParseHttpHeaders: one line. */
    method ParseHttpHeader(buffer: array<Byte>, pos: nat, ghost last: nat, name: seq<Byte>)
      returns (ok: bool, name': seq<Byte>, value: seq<Byte>, pos': nat)
      requires Ends(buffer[..], last) && pos < last && last - pos <= chs.Length
      modifies chs
      ensures ok <==> ParseField(buffer[..], pos, last, name).Some?
      ensures ok ==> (Field(!Blank(buffer[pos]), name', value), pos') == ParseField(buffer[..], pos, last, name).value
    {
      hide First, StopsAt;
      pos', name', value := pos, name, [];
      if !Blank(buffer[pos']) {
        pos' := SearchFor(buffer, pos', TokenEnd, last);
        if buffer[pos'] != COLON {
          return false, name', value, pos';
        }
        name' := StringFromLatin1(buffer, pos, pos');
      }
      var start := SearchFor(buffer, pos' + 1, NotBlank, last);
      pos' := SearchFor(buffer, start, ToCR, last);
      value := StringFromLatin1(buffer, start, pos');
      if buffer[pos' + 1] == LF {
        pos' := pos' + 2;
      }
      ok := true;
    }

    /** What one line says, once it is parsed: the server looks at it first if it names its header. */
    method TakeRequestHeader(named: bool, name: seq<Byte>, value: seq<Byte>) returns (ok: bool)
      modifies this`reqHeaders
      modifies this`isKeepAlive, this`shouldSend100Continue, this`requestContentLength, this`requestIsChunked
      modifies this`ask
      ensures var f := Field(named, name, value);
              var r := Process(old(Meant()), f, isHttp10, parse);
              (ok <==> r.Some?) && (ok ==> r == Some(Meant()) && reqHeaders == Added(old(reqHeaders), f))
    {
      hide Same, Added;
      ok := true;
      if named {
        ok := ProcessRequestHeader(name, value);
      }
      if ok {
        AddRequestHeader(name, value, named);
      }
    }

    method ParseHttpHeaders(buffer: array<Byte>, pos: nat, last: nat) returns (ok: bool, ghost fields: seq<Field>)
      requires Ends(buffer[..], last) && pos <= last + 2 && (pos < last ==> last - pos <= chs.Length)
      requires Meant() == Unasked(isHttp10)
      modifies chs, this`reqHeaders
      modifies this`isKeepAlive, this`shouldSend100Continue, this`requestContentLength, this`requestIsChunked
      modifies this`ask
      ensures var all := ParseFields(buffer[..], pos, last, []);
              && (ok <==> all.Some? && Interpret(all.value, isHttp10, parse).Some?)
              && (ok ==> all == Some(fields) && Interpret(fields, isHttp10, parse) == Some(Meant()))
      ensures ok ==> reqHeaders == AddAll(old(reqHeaders), fields)
    {
      hide ParseField, Added, Process, Interpret, AddAll;
      ghost var all := ParseFields(buffer[..], pos, last, []);
      var p, name := pos, [];
      fields := [];
      assert all == Preceded(fields, all) by { assert all.Some? ==> [] + all.value == all.value; }
      NothingYet(isHttp10, parse, reqHeaders);
      while p < last
        invariant pos <= p <= last + 2 && reqHeaders == AddAll(old(reqHeaders), fields)
        invariant all == Preceded(fields, ParseFields(buffer[..], p, last, name))
        invariant Interpret(fields, isHttp10, parse) == Some(Meant())
        decreases last + 2 - p
      {
        var named := !Blank(buffer[p]);
        var found, name', value, next := ParseHttpHeader(buffer, p, last, name);
        if !found {
          return false, fields;
        }
        ghost var f := Field(named, name', value);
        LineTaken(buffer[..], p, last, name, fields, all);
        OneMore(fields, f, isHttp10, parse, old(reqHeaders));
        var known := TakeRequestHeader(named, name', value);
        fields := fields + [f];
        p, name := next, name';
        if !known {
          Refused(fields, ParseFields(buffer[..], p, last, name), isHttp10, parse);
          return false, fields;
        }
      }
      assert fields + [] == fields;
      return true, fields;
    }

    method ParseRequestLine(buffer: array<Byte>, start: nat, ghost last: nat) returns (ok: bool, pos: nat)
      requires Ends(buffer[..], last) && start <= last && last + 2 - start <= chs.Length
      modifies chs, this`isMethodHead, this`requestMethod, this`requestPath, this`requestQueryString
      modifies this`requestProtocol, this`isHttp10
      ensures ok <==> RequestLine(buffer[..], start, last).Some?
      ensures ok ==> var FirstLine(verb, target, version) := RequestLine(buffer[..], start, last).value;
                     && requestMethod == verb && pos == target.next + 10
                     && requestPath == target.path && requestQueryString == target.query
                     && requestProtocol == HTTP1 + [version] && isHttp10 == (version == HTTP10_DIGIT)
      ensures isMethodHead <==> old(isMethodHead) || RequestHead.Reads(buffer[..], start, HEAD, last)
    {
      hide Token, ParseTarget, ParseVersion, RequestHead.Reads;
      requestMethod, pos := ParseHttpMethod(buffer, start, last);
      ok, pos := ParseHttpPath(buffer, pos, last);
      if !ok {
        return false, pos;
      }
      ok, pos := ParseHttpProtocol(buffer, pos, last);
    }

    /** ParseRequest for a head that FindRequestEnd has found in buffer[start..end]. */
    method ParseRequest(buffer: array<Byte>, start: nat, end: nat) returns (ok: bool, ghost fields: seq<Field>)
      requires start + 4 <= end <= buffer.Length && Ends(buffer[..], end - 2) && end - start <= chs.Length
      modifies chs, this
      ensures var parsed := ParseHead(buffer[..], start, end - 2, parse);
              && (ok <==> parsed.Some?)
              && (ok ==> parsed == Some(Head(requestMethod, requestPath, requestQueryString,
                                             parsed.value.version, fields, Meant())))
              && (ok ==> requestProtocol == HTTP1 + [parsed.value.version])
              && (ok ==> isHttp10 == (parsed.value.version == HTTP10_DIGIT))
              && (ok ==> reqHeaders == AddAll(map[], fields))
              && (isMethodHead <==> RequestHead.Reads(buffer[..], start, HEAD, end - 2))
    {
      hide RequestLine, ParseFields, Interpret, RequestHead.Reads, AddAll;
      reqHeaders := map[];
      ask := WebSocketAsk(false, false, false, None);
      isMethodHead := false;
      var pos;
      ok, pos := ParseRequestLine(buffer, start, end - 2);
      if !ok {
        return false, [];
      }
      isKeepAlive, shouldSend100Continue, requestContentLength, requestIsChunked := !isHttp10, false, 0, false;
      ok, fields := ParseHttpHeaders(buffer, pos, end - 2);
    }
  }

  lemma NothingYet(isHttp10: bool, parse: LengthParser, m: Headers)
    ensures Interpret([], isHttp10, parse) == Some(Unasked(isHttp10)) && AddAll(m, []) == m
  {
  }

  lemma OneMore(fs: seq<Field>, f: Field, isHttp10: bool, parse: LengthParser, m: Headers)
    ensures AddAll(m, fs + [f]) == Added(AddAll(m, fs), f)
    ensures var before := Interpret(fs, isHttp10, parse);
            before.Some? ==> Interpret(fs + [f], isHttp10, parse) == Process(before.value, f, isHttp10, parse)
  {
    hide Added, Process;
    assert (fs + [f])[..|fs|] == fs;
  }

  /** The line at `p` moves from what is still to parse to what is done. */
  lemma LineTaken(b: seq<Byte>, p: nat, last: nat, name: seq<Byte>, done: seq<Field>, all: Option<seq<Field>>)
    requires Ends(b, last) && p < last && ParseField(b, p, last, name).Some?
    requires all == Preceded(done, ParseFields(b, p, last, name))
    ensures var (f, next) := ParseField(b, p, last, name).value;
            all == Preceded(done + [f], ParseFields(b, next, last, f.name))
  {
    hide ParseField;
    var (f, next) := ParseField(b, p, last, name).value;
    assert forall fs :: done + ([f] + fs) == done + [f] + fs;
  }

  lemma Refused(done: seq<Field>, rest: Option<seq<Field>>, isHttp10: bool, parse: LengthParser)
    requires Interpret(done, isHttp10, parse).None?
    ensures var all := Preceded(done, rest);
            all.Some? ==> Interpret(all.value, isHttp10, parse).None?
  {
    hide Interpret;
    if rest.Some? {
      RefusedStays(done, rest.value, isHttp10, parse);
    }
  }

  lemma WordsHaveNoCR(w: seq<Byte>)
    requires Word(w)
    ensures CR !in w && w != []
  {
  }

  lemma TokenOfWord(b: seq<Byte>, pos: nat, last: nat, w: seq<Byte>)
    requires Ends(b, last) && pos <= last && Word(w) && RequestHead.Reads(b, pos, w, last)
    ensures Token(b, pos, last) == (w[..|w| - 1], pos + |w|)
  {
    hide First, RequestHead.Reads;
    var verb := w[..|w| - 1];
    assert w == verb + [SPACE];
    TokenParses(b, pos, last, verb);
  }

  lemma DifferentWords(b: seq<Byte>, pos: nat, last: nat, i: nat)
    requires Ends(b, last) && pos <= last && i < |KNOWN| && i != 3 && CR !in KNOWN[i]
    requires RequestHead.Reads(b, pos, KNOWN[i], last)
    ensures !RequestHead.Reads(b, pos, HEAD, last)
  {
    assert b[pos] == b[pos..pos + |KNOWN[i]|][0] == KNOWN[i][0];
  }

  lemma CrStops(k: Stop)
    ensures StopsAt(k, CR)
  {
  }
}
