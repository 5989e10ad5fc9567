/**
 * What the fields of a request head mean: the dictionary of headers (Nowin/OwinHandler.cs:112, 174-187)
 * and the headers the server itself looks at (Nowin/Transport2HttpHandler.cs:134-137, 171-236).
 */
module RequestHeaders {
  import opened Bytes

  /** `named`: the line began with this name; otherwise it was folded and continues it. */
  datatype Field = Field(named: bool, name: seq<Byte>, value: seq<Byte>)

  /** OrdinalIgnoreCase on Latin-1 text: letters are compared without their case bit. */
  function CaseFold(c: Byte): Byte {
    if 65 <= c <= 90 || (192 <= c <= 222 && c != 215) then c + 32 else c
  }

  function Canonical(name: seq<Byte>): seq<Byte> {
    seq(|name|, i requires 0 <= i < |name| => CaseFold(name[i]))
  }

  predicate Same(s: seq<Byte>, text: string) {
    Canonical(s) == Canonical(Latin1(text))
  }

  lemma FoldedLetters(a: Byte, b: Byte)
    ensures CaseFold(a) == CaseFold(b) <==> SameLetter(a, b)
  {
  }

  /** Names are equal exactly if they differ in nothing but the case of letters. */
  lemma CanonicalIsCaseless(s: seq<Byte>, t: seq<Byte>)
    ensures Canonical(s) == Canonical(t) <==> SameText(s, t)
  {
    hide CaseFold, SameLetter;
    if |s| == |t| {
      forall i | 0 <= i < |s|
        ensures Canonical(s)[i] == Canonical(t)[i] <==> SameLetter(s[i], t[i])
      {
        FoldedLetters(s[i], t[i]);
      }
      assert Canonical(s) == Canonical(t) <==> forall i :: 0 <= i < |s| ==> Canonical(s)[i] == Canonical(t)[i];
    } else {
      assert |Canonical(s)| == |s| && |Canonical(t)| == |t|;
    }
  }

  lemma SameIsCaseless(s: seq<Byte>, text: string)
    ensures Same(s, text) <==> SameText(s, Latin1(text))
  {
    hide Canonical;
    CanonicalIsCaseless(s, Latin1(text));
  }

  // ---------------------------------------------------------------------------------------
  // The dictionary
  // ---------------------------------------------------------------------------------------

  type Headers = map<seq<Byte>, seq<seq<Byte>>>

  function Added(m: Headers, f: Field): Headers {
    var key := Canonical(f.name);
    m[key := (if key in m then m[key] else []) + [f.value]]
  }

  function AddAll(m: Headers, fs: seq<Field>): Headers
    decreases |fs|
  {
    if fs == [] then m else Added(AddAll(m, fs[..|fs| - 1]), fs[|fs| - 1])
  }

  /** The values that arrived under a name, in whatever case, in order of arrival. */
  function ValuesOf(fs: seq<Field>, key: seq<Byte>): seq<seq<Byte>>
    decreases |fs|
  {
    if fs == [] then []
    else (if Canonical(fs[0].name) == key then [fs[0].value] else []) + ValuesOf(fs[1..], key)
  }

  lemma {:induction false} ValuesOfLast(fs: seq<Field>, f: Field, key: seq<Byte>)
    ensures ValuesOf(fs + [f], key) == ValuesOf(fs, key) + if Canonical(f.name) == key then [f.value] else []
    decreases |fs|
  {
    hide Canonical;
    if fs == [] {
      assert [f][1..] == [] && [] + [f] == [f];
    } else {
      assert (fs + [f])[0] == fs[0] && (fs + [f])[1..] == fs[1..] + [f];
      ValuesOfLast(fs[1..], f, key);
    }
  }

  /** A header is present exactly if it arrived, with its values in arrival order. */
  lemma {:induction false} HeadersInArrivalOrder(fs: seq<Field>, key: seq<Byte>)
    ensures var m := AddAll(map[], fs);
            && (key in m <==> exists i :: 0 <= i < |fs| && Canonical(fs[i].name) == key)
            && (key in m <==> ValuesOf(fs, key) != [])
            && (key in m ==> m[key] == ValuesOf(fs, key))
    decreases |fs|
  {
    hide Canonical;
    if fs != [] {
      var n := |fs| - 1;
      HeadersInArrivalOrder(fs[..n], key);
      ValuesOfLast(fs[..n], fs[n], key);
      assert fs[..n] + [fs[n]] == fs;
      assert Canonical(fs[n].name) == key ==> key in AddAll(map[], fs);
    }
  }

  // ---------------------------------------------------------------------------------------
  // The headers of the server
  // ---------------------------------------------------------------------------------------

  /** ulong.TryParse */
  type LengthParser = seq<Byte> -> Option<nat>

  /** The conditions of a WebSocket request, and its key. */
  datatype WebSocketAsk = WebSocketAsk(upgrades: bool, webSocket: bool, version13: bool, key: Option<seq<Byte>>) {
    predicate Satisfied() {
      upgrades && webSocket && version13 && key.Some?
    }
  }

  datatype Meaning = Meaning(keepAlive: bool, expects100: bool, contentLength: nat, chunked: bool, ask: WebSocketAsk)

  predicate StandsAt(value: seq<Byte>, i: nat, text: string) {
    i + |text| <= |value| && Same(value[i..i + |text|], text)
  }

  /** value.IndexOf(text, OrdinalIgnoreCase) >= 0 */
  predicate Mentions(value: seq<Byte>, text: string) {
    exists i: nat :: i <= |value| && StandsAt(value, i, text)
  }

  /** A text stands in a value exactly if the value is that text, but for case, with something around it or nothing. */
  lemma MentionsText(value: seq<Byte>, text: string)
    ensures Mentions(value, text) <==>
            exists x: seq<Byte>, y: seq<Byte>, z: seq<Byte> :: value == x + y + z && SameText(y, Latin1(text))
  {
    hide Same, SameText, Latin1;
    forall x: seq<Byte>, y: seq<Byte>, z: seq<Byte> | value == x + y + z && SameText(y, Latin1(text))
      ensures Mentions(value, text)
    {
      SameIsCaseless(y, text);
      SameLength(y, text);
      assert value[|x|..|x| + |text|] == y;
      assert StandsAt(value, |x|, text);
    }
    if Mentions(value, text) {
      var i: nat :| i <= |value| && StandsAt(value, i, text);
      var y := value[i..i + |text|];
      SameIsCaseless(y, text);
      assert value == value[..i] + y + value[i + |text|..];
    }
  }

  /** ProcessRequestHeader; None where it throws. */
  function Process(m: Meaning, f: Field, isHttp10: bool, parse: LengthParser): Option<Meaning> {
    if !f.named then Some(m)
    else if Same(f.name, "Connection") then
      if isHttp10 then Some(if Same(f.value, "Keep-Alive") then m.(keepAlive := true) else m)
      else if Same(f.value, "Close") then Some(m.(keepAlive := false))
      else Some(if Mentions(f.value, "Upgrade") then m.(ask := m.ask.(upgrades := true)) else m)
    else if Same(f.name, "Expect") then
      Some(if Same(f.value, "100-Continue") then m.(expects100 := true) else m)
    else if Same(f.name, "Content-Length") then
      match parse(f.value)
      case None => None
      case Some(n) => Some(m.(contentLength := n))
    else if Same(f.name, "Transfer-Encoding") then
      Some(if Same(f.value, "chunked") then m.(chunked := true, contentLength := ULONG_MAX) else m)
    else if Same(f.name, "Upgrade") then
      Some(if Same(f.value, "websocket") then m.(ask := m.ask.(webSocket := true)) else m)
    else if Same(f.name, "Sec-WebSocket-Version") then
      Some(if f.value == Latin1("13") then m.(ask := m.ask.(version13 := true)) else m)
    else if Same(f.name, "Sec-WebSocket-Key") then Some(m.(ask := m.ask.(key := Some(f.value))))
    else Some(m)
  }

  function Unasked(isHttp10: bool): Meaning {
    Meaning(!isHttp10, false, 0, false, WebSocketAsk(false, false, false, None))
  }

  function Interpret(fs: seq<Field>, isHttp10: bool, parse: LengthParser): Option<Meaning>
    decreases |fs|
  {
    if fs == [] then Some(Unasked(isHttp10))
    else match Interpret(fs[..|fs| - 1], isHttp10, parse)
         case None => None
         case Some(m) => Process(m, fs[|fs| - 1], isHttp10, parse)
  }

  predicate Any(fs: seq<Field>, p: Field -> bool) {
    exists i :: 0 <= i < |fs| && p(fs[i])
  }

  /** A field of the server itself, with a given value. */
  predicate Says(f: Field, name: string, value: string) {
    f.named && Same(f.name, name) && Same(f.value, value)
  }

  predicate Said(fs: seq<Field>, name: string, value: string) {
    Any(fs, f => Says(f, name, value))
  }

  predicate IsLength(f: Field) {
    f.named && Same(f.name, "Content-Length")
  }

  predicate IsChunked(f: Field) {
    Says(f, "Transfer-Encoding", "chunked")
  }

  /** The field that decides on the length of the body is the last one of these. */
  predicate Limits(f: Field) {
    IsLength(f) || IsChunked(f)
  }

  predicate Upgrades(f: Field) {
    f.named && Same(f.name, "Connection") && !Same(f.value, "Close") && Mentions(f.value, "Upgrade")
  }

  predicate IsVersion13(f: Field) {
    f.named && Same(f.name, "Sec-WebSocket-Version") && f.value == Latin1("13")
  }

  predicate IsKey(f: Field) {
    f.named && Same(f.name, "Sec-WebSocket-Key")
  }

  /** The names are different, whatever their case. */
  lemma NamesDiffer(name: seq<Byte>)
    ensures Same(name, "Connection") ==> |name| == 10
    ensures Same(name, "Expect") ==> |name| == 6
    ensures Same(name, "Content-Length") ==> |name| == 14
    ensures Same(name, "Transfer-Encoding") ==> |name| == 17 && CaseFold(name[0]) == 't' as int
    ensures Same(name, "Upgrade") ==> |name| == 7
    ensures Same(name, "Sec-WebSocket-Version") ==> |name| == 21
    ensures Same(name, "Sec-WebSocket-Key") ==> |name| == 17 && CaseFold(name[0]) == 's' as int
  {
    hide Same, CaseFold;
    SameLength(name, "Connection");
    SameLength(name, "Expect");
    SameLength(name, "Content-Length");
    SameLength(name, "Transfer-Encoding");
    SameLength(name, "Upgrade");
    SameLength(name, "Sec-WebSocket-Version");
    SameLength(name, "Sec-WebSocket-Key");
    FirstLetters(name);
  }

  lemma SameLength(name: seq<Byte>, text: string)
    ensures Same(name, text) ==> |name| == |text|
  {
  }

  lemma FirstLetters(name: seq<Byte>)
    ensures Same(name, "Transfer-Encoding") ==> name != [] && CaseFold(name[0]) == 't' as int
    ensures Same(name, "Sec-WebSocket-Key") ==> name != [] && CaseFold(name[0]) == 's' as int
  {
    hide Canonical, Same;
    if Same(name, "Transfer-Encoding") {
      FirstLetter(name, "Transfer-Encoding");
    }
    if Same(name, "Sec-WebSocket-Key") {
      FirstLetter(name, "Sec-WebSocket-Key");
    }
  }

  lemma FirstLetter(name: seq<Byte>, text: string)
    requires text != "" && Same(name, text)
    ensures |name| == |text| && CaseFold(name[0]) == CaseFold(Latin1(text)[0])
  {
    assert Canonical(name)[0] == Canonical(Latin1(text))[0];
  }

  predicate Unreadable(f: Field, parse: LengthParser) {
    IsLength(f) && parse(f.value) == None
  }

  /** The length that a limiting field sets. */
  function LimitOf(f: Field, parse: LengthParser): Option<nat> {
    if IsLength(f) then parse(f.value) else Some(ULONG_MAX)
  }

  /** What one field changes. */
  lemma FieldSays(m: Meaning, f: Field, isHttp10: bool, parse: LengthParser)
    ensures var r := Process(m, f, isHttp10, parse);
            && (r.None? <==> Unreadable(f, parse))
            && (r.Some? ==>
                  && (r.value.chunked <==> m.chunked || IsChunked(f))
                  && (r.value.expects100 <==> m.expects100 || Says(f, "Expect", "100-Continue"))
                  && (isHttp10 ==> (r.value.keepAlive <==> m.keepAlive || Says(f, "Connection", "Keep-Alive")))
                  && (!isHttp10 ==> (r.value.keepAlive <==> m.keepAlive && !Says(f, "Connection", "Close")))
                  && Some(r.value.contentLength) == (if Limits(f) then LimitOf(f, parse) else Some(m.contentLength))
                  && AskSays(m.ask, f, isHttp10, r.value.ask))
  {
    hide Same, Mentions, Latin1;
    NamesDiffer(f.name);
  }

  predicate AskSays(a: WebSocketAsk, f: Field, isHttp10: bool, a': WebSocketAsk) {
    && (a'.upgrades <==> a.upgrades || (!isHttp10 && Upgrades(f)))
    && (a'.webSocket <==> a.webSocket || Says(f, "Upgrade", "websocket"))
    && (a'.version13 <==> a.version13 || IsVersion13(f))
    && a'.key == if IsKey(f) then Some(f.value) else a.key
  }

  lemma AnyLast(fs: seq<Field>, p: Field -> bool)
    requires fs != []
    ensures var n := |fs| - 1;
            Any(fs, p) <==> p(fs[n]) || Any(fs[..n], p)
  {
    var n := |fs| - 1;
    var init := fs[..n];
    assert forall i :: 0 <= i < n ==> init[i] == fs[i];
    if i :| 0 <= i < |fs| && p(fs[i]) {
      if i < n {
        assert p(init[i]);
      }
    }
  }

  /**
   * The head is refused exactly if some Content-Length is not a number; otherwise the body is chunked
   * and the connection kept exactly if some field says so, in any order and whatever stands between.
   */
  lemma {:induction false} WhatFieldsSay(fs: seq<Field>, isHttp10: bool, parse: LengthParser)
    ensures var r := Interpret(fs, isHttp10, parse);
            && (r.None? <==> Any(fs, f => Unreadable(f, parse)))
            && (r.Some? ==> (r.value.chunked <==> Any(fs, IsChunked)))
            && (r.Some? ==> (r.value.expects100 <==> Said(fs, "Expect", "100-Continue")))
            && (r.Some? ==> (r.value.keepAlive <==>
                  if isHttp10 then Said(fs, "Connection", "Keep-Alive") else !Said(fs, "Connection", "Close")))
    decreases |fs|
  {
    hide Says, Any, Process, IsLength, IsChunked, Unreadable, AskSays, Limits;
    var unreadable := f => Unreadable(f, parse);
    if fs == [] {
      NoneYet(unreadable);
      NoneYet(IsChunked);
      NoneYet(f => Says(f, "Expect", "100-Continue"));
      NoneYet(f => Says(f, "Connection", "Keep-Alive"));
      NoneYet(f => Says(f, "Connection", "Close"));
    } else {
      var n := |fs| - 1;
      WhatFieldsSay(fs[..n], isHttp10, parse);
      var m := Interpret(fs[..n], isHttp10, parse);
      if m.Some? {
        FieldSays(m.value, fs[n], isHttp10, parse);
      }
      AnyLast(fs, unreadable);
      AnyLast(fs, IsChunked);
      AnyLast(fs, f => Says(f, "Expect", "100-Continue"));
      AnyLast(fs, f => Says(f, "Connection", "Keep-Alive"));
      AnyLast(fs, f => Says(f, "Connection", "Close"));
    }
  }

  /**
   * The length of the body is what the last of the fields that limit it says: a Content-Length its
   * number, chunked coding no limit; 0 without such a field.
   */
  lemma {:induction false} WhatFieldsLimit(fs: seq<Field>, isHttp10: bool, parse: LengthParser, i: nat)
    requires i < |fs| && Limits(fs[i]) && !Any(fs[i + 1..], Limits)
    ensures var r := Interpret(fs, isHttp10, parse);
            r.Some? ==> Some(r.value.contentLength) == LimitOf(fs[i], parse)
    decreases |fs|
  {
    hide Any, Process, Limits, LimitOf, AskSays, IsChunked;
    var n := |fs| - 1;
    var m := Interpret(fs[..n], isHttp10, parse);
    if m.Some? {
      FieldSays(m.value, fs[n], isHttp10, parse);
      if i < n {
        AnyLast(fs[i + 1..], Limits);
        assert fs[i + 1..][..n - i - 1] == fs[..n][i + 1..];
        WhatFieldsLimit(fs[..n], isHttp10, parse, i);
      }
    }
  }

  lemma {:induction false} NoFieldLimits(fs: seq<Field>, isHttp10: bool, parse: LengthParser)
    requires !Any(fs, Limits)
    ensures var r := Interpret(fs, isHttp10, parse);
            r.Some? && r.value.contentLength == 0 && !r.value.chunked
    decreases |fs|
  {
    hide Any, Process, AskSays;
    if fs != [] {
      var n := |fs| - 1;
      AnyLast(fs, Limits);
      NoFieldLimits(fs[..n], isHttp10, parse);
      FieldSays(Interpret(fs[..n], isHttp10, parse).value, fs[n], isHttp10, parse);
    }
  }

  /** Some field limits the body last. */
  lemma {:induction false} LastLimit(fs: seq<Field>) returns (i: nat)
    requires Any(fs, Limits)
    ensures i < |fs| && Limits(fs[i]) && !Any(fs[i + 1..], Limits)
    decreases |fs|
  {
    hide Limits;
    var n := |fs| - 1;
    if Limits(fs[n]) {
      assert fs[n + 1..] == [];
      return n;
    }
    AnyLast(fs, Limits);
    i := LastLimit(fs[..n]);
    AnyLast(fs[i + 1..], Limits);
    assert fs[i + 1..][..n - i - 1] == fs[..n][i + 1..];
  }

  /** All conditions of a WebSocket request hold exactly if each is said by some field of HTTP/1.1. */
  lemma {:induction false} WhatFieldsAsk(fs: seq<Field>, isHttp10: bool, parse: LengthParser)
    ensures var r := Interpret(fs, isHttp10, parse);
            r.Some? ==>
              && (r.value.ask.upgrades <==> !isHttp10 && Any(fs, Upgrades))
              && (r.value.ask.webSocket <==> Said(fs, "Upgrade", "websocket"))
              && (r.value.ask.version13 <==> Any(fs, IsVersion13))
              && (r.value.ask.key.Some? <==> Any(fs, IsKey))
              && (r.value.ask.Satisfied() <==> !isHttp10 && Any(fs, Upgrades) && Said(fs, "Upgrade", "websocket")
                                               && Any(fs, IsVersion13) && Any(fs, IsKey))
    decreases |fs|
  {
    hide Says, Any, Process, IsLength, IsChunked, Unreadable, Limits, Upgrades, IsVersion13, IsKey;
    if fs == [] {
      NoneYet(Upgrades);
      NoneYet(f => Says(f, "Upgrade", "websocket"));
      NoneYet(IsVersion13);
      NoneYet(IsKey);
    } else {
      var n := |fs| - 1;
      WhatFieldsAsk(fs[..n], isHttp10, parse);
      var m := Interpret(fs[..n], isHttp10, parse);
      if m.Some? {
        FieldSays(m.value, fs[n], isHttp10, parse);
      }
      AnyLast(fs, Upgrades);
      AnyLast(fs, f => Says(f, "Upgrade", "websocket"));
      AnyLast(fs, IsVersion13);
      AnyLast(fs, IsKey);
    }
  }

  lemma NoneYet(p: Field -> bool)
    ensures !Any([], p)
  {
  }

  /** The same field lines, each name in some case of its own. */
  predicate Respelled(fs: seq<Field>, gs: seq<Field>) {
    |fs| == |gs| && forall i :: 0 <= i < |fs| ==> OneRespelled(fs[i], gs[i])
  }

  predicate OneRespelled(f: Field, g: Field) {
    f.named == g.named && f.value == g.value && SameText(f.name, g.name)
  }

  lemma OneRespelledMeans(m: Meaning, d: Headers, f: Field, g: Field, isHttp10: bool, parse: LengthParser)
    requires OneRespelled(f, g)
    ensures Process(m, f, isHttp10, parse) == Process(m, g, isHttp10, parse) && Added(d, f) == Added(d, g)
  {
    hide Canonical, Mentions, Latin1;
    CanonicalIsCaseless(f.name, g.name);
  }

  /** In whatever case the names arrive, the request means the same and has the same dictionary. */
  lemma {:induction false} RespelledMeansTheSame(fs: seq<Field>, gs: seq<Field>, isHttp10: bool, parse: LengthParser)
    requires Respelled(fs, gs)
    ensures Interpret(fs, isHttp10, parse) == Interpret(gs, isHttp10, parse) && AddAll(map[], fs) == AddAll(map[], gs)
    decreases |fs|
  {
    hide Process, Added, OneRespelled;
    if fs != [] {
      var n := |fs| - 1;
      RespelledMeansTheSame(fs[..n], gs[..n], isHttp10, parse);
      var m := Interpret(fs[..n], isHttp10, parse);
      OneRespelledMeans(if m.Some? then m.value else Unasked(isHttp10), AddAll(map[], fs[..n]), fs[n], gs[n],
                        isHttp10, parse);
    }
  }

  /** A refusal stays. */
  lemma {:induction false} RefusedStays(fs: seq<Field>, more: seq<Field>, isHttp10: bool, parse: LengthParser)
    requires Interpret(fs, isHttp10, parse).None?
    ensures Interpret(fs + more, isHttp10, parse).None?
    decreases |more|
  {
    hide Process;
    if more == [] {
      assert fs + more == fs;
    } else {
      var n := |more| - 1;
      RefusedStays(fs, more[..n], isHttp10, parse);
      assert (fs + more)[..|fs + more| - 1] == fs + more[..n];
    }
  }
}
