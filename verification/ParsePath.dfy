/**
 * Decoding of request paths: percent escapes and UTF-8 to UTF-16 (Nowin/Transport2HttpHandler.cs:362-458),
 * against section 3 of RFC 3629 and section 2.1 of RFC 2781.
 */
module ParsePath {
  import opened Bytes
  import opened Chunked

  /** A UTF-16 code unit. */
  type Unit = x: int | 0 <= x < 0x1_0000

  const PERCENT: Byte := 37
  const QUESTION_MARK: Byte := 63

  /** `(char)x` */
  function ToChar(x: nat): Unit { x % 0x1_0000 }

  // ---------------------------------------------------------------------------------------
  // What ParsePath writes
  // ---------------------------------------------------------------------------------------

  /** cchlen bytes of a multi-byte sequence are missing, cchacc is what the others say. */
  datatype Acc = Acc(len: nat, value: nat)

  const NONE := Acc(0, 0)

  function Combine(value: nat): seq<Unit> {
    if value < 0x1_0000 then [ToChar(value)]
    else [ToChar(0xD800 + (value - 0x1_0000) / 1024), ToChar(0xDC00 + (value - 0x1_0000) % 1024)]
  }

  /** One unescaped byte. */
  function FeedByte(a: Acc, cch: Byte): (r: (Acc, seq<Unit>))
    ensures |r.1| + Credit(r.0) <= 1 + Credit(a)
  {
    if a.len == 0 then
      if cch < 194 || cch >= 245 then (NONE, [cch])
      else if cch < 224 then (Acc(1, cch - 192), [])
      else if cch < 240 then (Acc(2, cch - 224), [])
      else (Acc(3, cch - 240), [])
    else
      var value := a.value * 64 + cch % 64;
      if a.len == 1 then (NONE, Combine(value)) else (Acc(a.len - 1, value), [])
  }

  /** One more unit may be written for a sequence that has been begun. */
  function Credit(a: Acc): nat { if a.len > 0 then 1 else 0 }

  /** The callers stop at a space, a question mark or CR, none of which is a hexadecimal digit. */
  predicate Delimited(s: seq<Byte>, end: nat) {
    end < |s| && ParseHexChar(s[end]) < 0
  }

  /** One turn of the loop: the next position, what is pending, and what is written. */
  function Turn(s: seq<Byte>, i: nat, end: nat, a: Acc): (r: (nat, Acc, seq<Unit>))
    requires Delimited(s, end) && i < end
    ensures i < r.0 <= end + 1 && |r.2| + Credit(r.1) <= r.0 - i + Credit(a)
  {
    if s[i] != PERCENT then
      var (a', out) := FeedByte(a, s[i]);
      (i + 1, a', out)
    else
      var v1 := ParseHexChar(s[i + 1]);
      if v1 < 0 then (i + 2, a, [PERCENT, s[i + 1]])
      else
        var v2 := ParseHexChar(s[i + 2]);
        if v2 < 0 || v1 < 8 then (i + 3, a, [PERCENT, s[i + 1], s[i + 2]])
        else
          var (a', out) := FeedByte(a, v1 * 16 + v2);
          (i + 3, a', out)
  }

  /** The units written from position `i` on; a broken escape at the end swallows the delimiter. */
  function Path(s: seq<Byte>, i: nat, end: nat, a: Acc): (units: seq<Unit>)
    requires Delimited(s, end) && i <= end + 1
    ensures |units| <= end + 1 - i + Credit(a)
    decreases end + 1 - i
  {
    if i >= end then if a.len > 0 then [QUESTION_MARK] else []
    else
      var (i', a', out) := Turn(s, i, end, a);
      out + Path(s, i', end, a')
  }

  // ---------------------------------------------------------------------------------------
  // What a client writes
  // ---------------------------------------------------------------------------------------

  /** How one byte is written: as it is, or escaped with upper or lower case digits. */
  datatype Form = Raw | Escaped(upper1: bool, upper2: bool)

  function HexChar(v: nat, upper: bool): (c: Byte)
    requires v < 16
    ensures ParseHexChar(c) == v
  {
    if v < 10 then 48 + v else if upper then 55 + v else 87 + v
  }

  function Written(b: Byte, f: Form): seq<Byte> {
    match f
    case Raw => [b]
    case Escaped(u1, u2) => [PERCENT, HexChar(b / 16, u1), HexChar(b % 16, u2)]
  }

  function WrittenAll(bs: seq<Byte>, fs: seq<Form>): seq<Byte>
    requires |bs| == |fs|
  {
    if bs == [] then [] else Written(bs[0], fs[0]) + WrittenAll(bs[1..], fs[1..])
  }

  /** A character: plain ASCII, an escaped ASCII byte, or a code point with the forms of its UTF-8 bytes. */
  datatype Piece =
    | Plain(c: Byte)
    | Ascii(c: Byte, upper1: bool, upper2: bool)
    | Code(point: nat, forms: seq<Form>)

  function Utf16(point: nat): seq<Unit>
    requires Scalar(point)
  {
    if point < 0x1_0000 then [point]
    else [0xD800 + (point - 0x1_0000) / 0x400, 0xDC00 + (point - 0x1_0000) % 0x400]
  }

  predicate Legal(p: Piece) {
    match p
    case Plain(c) => c < 0x80 && c != PERCENT
    case Ascii(c, _, _) => c < 0x80
    case Code(point, forms) => Scalar(point) && |forms| == |Utf8(point)|
  }

  function Render(p: Piece): seq<Byte>
    requires Legal(p)
  {
    match p
    case Plain(c) => [c]
    case Ascii(c, u1, u2) => Written(c, Escaped(u1, u2))
    case Code(point, forms) => WrittenAll(Utf8(point), forms)
  }

  /** What the application gets to see: escaped ASCII stays escaped. */
  function Meaning(p: Piece): seq<Unit>
    requires Legal(p)
  {
    match p
    case Plain(c) => [c]
    case Ascii(c, u1, u2) => [PERCENT, HexChar(c / 16, u1), HexChar(c % 16, u2)]
    case Code(point, forms) => Utf16(point)
  }

  predicate LegalPieces(ps: seq<Piece>) {
    forall i :: 0 <= i < |ps| ==> Legal(ps[i])
  }

  function RenderAll(ps: seq<Piece>): seq<Byte>
    requires LegalPieces(ps)
  {
    if ps == [] then [] else Render(ps[0]) + RenderAll(ps[1..])
  }

  function MeaningAll(ps: seq<Piece>): seq<Unit>
    requires LegalPieces(ps)
  {
    if ps == [] then [] else Meaning(ps[0]) + MeaningAll(ps[1..])
  }

  // ---------------------------------------------------------------------------------------
  // Decoding undoes writing
  // ---------------------------------------------------------------------------------------

  function FeedAll(a: Acc, bs: seq<Byte>): (Acc, seq<Unit>)
    decreases |bs|
  {
    if bs == [] then (a, [])
    else
      var (a', out) := FeedByte(a, bs[0]);
      var (a'', rest) := FeedAll(a', bs[1..]);
      (a'', out + rest)
  }

  /** A continuation byte shifts its six bits in. */
  lemma FeedContinuation(len: nat, x: nat)
    requires len > 0
    ensures var b: Byte := 128 + x % 64;
            FeedByte(Acc(len, x / 64), b) == if len == 1 then (NONE, Combine(x)) else (Acc(len - 1, x), [])
  {
    assert (128 + x % 64) % 64 == x % 64 && x / 64 * 64 + x % 64 == x;
  }

  /**
   * Section 3 of RFC 3629: 0xC2 to 0xF4 begin a sequence of two, three or four bytes. Every other byte
   * stands for itself.
   */
  lemma WhatBeginsASequence(b: Byte)
    ensures 0xC2 <= b <= 0xF4 ==> FeedByte(NONE, b).1 == []
                                  && FeedByte(NONE, b).0.len == if b <= 0xDF then 1 else if b <= 0xEF then 2 else 3
    ensures b < 0xC2 || 0xF4 < b ==> FeedByte(NONE, b) == (NONE, [b])
  {
  }

  predicate HexDigit(b: Byte) {
    48 <= b <= 57 || 65 <= b <= 70 || 97 <= b <= 102
  }

  /** What is neither an escaped byte from 0x80 on nor a raw one is copied, escapes of any kind included. */
  lemma CopiedAsItIs(s: seq<Byte>, i: nat, end: nat)
    requires Delimited(s, end) && i < end
    ensures s[i] == 37 && !HexDigit(s[i + 1]) ==> Turn(s, i, end, NONE) == (i + 2, NONE, [s[i], s[i + 1]])
    ensures s[i] == 37 && HexDigit(s[i + 1]) && (s[i + 1] < 56 || !HexDigit(s[i + 2])) ==>
              Turn(s, i, end, NONE) == (i + 3, NONE, [s[i], s[i + 1], s[i + 2]])
    ensures s[i] < 0x80 && s[i] != 37 ==> Turn(s, i, end, NONE) == (i + 1, NONE, [s[i]])
  {
    hide FeedByte;
    WhatBeginsASequence(s[i]);
    if s[i] == 37 {
      HexDigits(s[i + 1]);
      if i + 2 < |s| {
        HexDigits(s[i + 2]);
      }
    }
  }

  lemma HexDigits(b: Byte)
    ensures ParseHexChar(b) >= 0 <==> HexDigit(b)
    ensures ParseHexChar(b) >= 8 <==> HexDigit(b) && b >= 56
  {
  }

  lemma FeedUtf8(point: nat)
    requires Scalar(point)
    ensures FeedAll(NONE, Utf8(point)) == (NONE, Utf16(point))
  {
    hide FeedByte, FeedAll;
    var x1 := point / 64;
    var x2 := x1 / 64;
    var x3 := x2 / 64;
    assert x2 == point / 4096 && x3 == point / 262144;
    var b1: Byte, b2: Byte, b3: Byte := 128 + point % 64, 128 + x1 % 64, 128 + x2 % 64;
    FeedContinuation(1, point);
    FeedLead(point);
    FeedOne(Acc(1, x1), b1);
    assert Combine(point) == Utf16(point);
    if point < 0x800 {
      FeedTwo(NONE, 192 + x1, [b1]);
      assert Utf8(point) == [192 + x1] + [b1];
    } else if point < 0x1_0000 {
      FeedContinuation(2, x1);
      FeedTwo(Acc(2, x2), b2, [b1]);
      FeedTwo(NONE, 224 + x2, [b2] + [b1]);
      assert Utf8(point) == [224 + x2] + ([b2] + [b1]);
    } else {
      FeedContinuation(2, x1);
      FeedContinuation(3, x2);
      FeedTwo(Acc(2, x2), b2, [b1]);
      FeedTwo(Acc(3, x3), b3, [b2] + [b1]);
      FeedTwo(NONE, 240 + x3, [b3] + ([b2] + [b1]));
      assert Utf8(point) == [240 + x3] + ([b3] + ([b2] + [b1]));
    }
  }

  lemma FeedLead(point: nat)
    requires Scalar(point)
    ensures point < 0x800 ==> FeedByte(NONE, 192 + point / 64) == (Acc(1, point / 64), [])
    ensures 0x800 <= point < 0x1_0000 ==> FeedByte(NONE, 224 + point / 64 / 64) == (Acc(2, point / 64 / 64), [])
    ensures 0x1_0000 <= point ==> FeedByte(NONE, 240 + point / 64 / 64 / 64) == (Acc(3, point / 64 / 64 / 64), [])
  {
  }

  lemma FeedTwo(a: Acc, b: Byte, rest: seq<Byte>)
    requires FeedByte(a, b).1 == []
    ensures FeedAll(a, [b] + rest) == FeedAll(FeedByte(a, b).0, rest)
  {
    assert ([b] + rest)[1..] == rest;
    var (a'', out) := FeedAll(FeedByte(a, b).0, rest);
    assert [] + out == out;
  }

  lemma FeedOne(a: Acc, b: Byte)
    ensures FeedAll(a, [b]) == FeedByte(a, b)
  {
    assert [b][1..] == [];
    assert FeedByte(a, b).1 + [] == FeedByte(a, b).1;
  }

  lemma PathByte(s: seq<Byte>, i: nat, end: nat, a: Acc, b: Byte, f: Form)
    requires Delimited(s, end) && b >= 0x80
    requires i + |Written(b, f)| <= end && s[i..i + |Written(b, f)|] == Written(b, f)
    ensures Path(s, i, end, a) == FeedByte(a, b).1 + Path(s, i + |Written(b, f)|, end, FeedByte(a, b).0)
  {
    hide FeedByte, ParseHexChar;
    var w := s[i..i + |Written(b, f)|];
    assert s[i] == w[0];
    if f.Escaped? {
      assert s[i + 1] == w[1] && s[i + 2] == w[2];
      assert b / 16 * 16 + b % 16 == b && b / 16 >= 8;
    }
  }

  lemma {:induction false} PathBytes(s: seq<Byte>, i: nat, end: nat, a: Acc, bs: seq<Byte>, fs: seq<Form>)
    requires Delimited(s, end) && |bs| == |fs| && forall k :: 0 <= k < |bs| ==> bs[k] >= 0x80
    requires i + |WrittenAll(bs, fs)| <= end && s[i..i + |WrittenAll(bs, fs)|] == WrittenAll(bs, fs)
    ensures var (a', out) := FeedAll(a, bs);
            Path(s, i, end, a) == out + Path(s, i + |WrittenAll(bs, fs)|, end, a')
    decreases |bs|
  {
    hide FeedByte, Path, Written;
    if bs != [] {
      var w, rest := Written(bs[0], fs[0]), WrittenAll(bs[1..], fs[1..]);
      Cut(s, i, w, rest);
      PathByte(s, i, end, a, bs[0], fs[0]);
      var (a', out) := FeedByte(a, bs[0]);
      PathBytes(s, i + |w|, end, a', bs[1..], fs[1..]);
      var (a'', out') := FeedAll(a', bs[1..]);
      var tail := Path(s, i + |w| + |rest|, end, a'');
      assert out + (out' + tail) == out + out' + tail;
    }
  }

  lemma Cut(s: seq<Byte>, i: nat, a: seq<Byte>, b: seq<Byte>)
    requires i + |a| + |b| <= |s| && s[i..i + |a| + |b|] == a + b
    ensures s[i..i + |a|] == a && s[i + |a|..i + |a| + |b|] == b
  {
    var w := s[i..i + |a| + |b|];
    assert w[..|a|] == s[i..i + |a|] && w[|a|..] == s[i + |a|..i + |a| + |b|];
  }

  lemma AsciiPiece(s: seq<Byte>, i: nat, end: nat, c: Byte, u1: bool, u2: bool)
    requires Delimited(s, end) && c < 0x80 && i + 3 <= end
    requires s[i..i + 3] == [PERCENT, HexChar(c / 16, u1), HexChar(c % 16, u2)]
    ensures Path(s, i, end, NONE) == [PERCENT, HexChar(c / 16, u1), HexChar(c % 16, u2)] + Path(s, i + 3, end, NONE)
  {
    hide ParseHexChar, HexChar, FeedByte;
    var w := s[i..i + 3];
    assert s[i] == w[0] && s[i + 1] == w[1] && s[i + 2] == w[2];
    assert c / 16 < 8;
  }

  lemma PathPiece(s: seq<Byte>, i: nat, end: nat, p: Piece)
    requires Delimited(s, end) && Legal(p)
    requires i + |Render(p)| <= end && s[i..i + |Render(p)|] == Render(p)
    ensures Path(s, i, end, NONE) == Meaning(p) + Path(s, i + |Render(p)|, end, NONE)
  {
    hide ParseHexChar, FeedAll, HexChar;
    match p
    case Plain(c) =>
      hide Path;
      PlainPiece(s, i, end, c);
    case Ascii(c, u1, u2) =>
      hide Path;
      AsciiPiece(s, i, end, c, u1, u2);
    case Code(point, forms) =>
      hide Path;
      CodePiece(s, i, end, point, forms);
  }

  lemma PlainPiece(s: seq<Byte>, i: nat, end: nat, c: Byte)
    requires Delimited(s, end) && Legal(Plain(c)) && i < end && s[i..i + 1] == [c]
    ensures Path(s, i, end, NONE) == [c] + Path(s, i + 1, end, NONE)
  {
    hide ParseHexChar, FeedAll, HexChar;
    assert s[i] == s[i..i + 1][0];
  }

  lemma CodePiece(s: seq<Byte>, i: nat, end: nat, point: nat, forms: seq<Form>)
    requires Delimited(s, end) && Legal(Code(point, forms))
    requires i + |Render(Code(point, forms))| <= end
    requires s[i..i + |Render(Code(point, forms))|] == Render(Code(point, forms))
    ensures Path(s, i, end, NONE)
         == Meaning(Code(point, forms)) + Path(s, i + |Render(Code(point, forms))|, end, NONE)
  {
    hide ParseHexChar, FeedAll, HexChar, Path;
    PathBytes(s, i, end, NONE, Utf8(point), forms);
    FeedUtf8(point);
  }

  /**
   * Any mix of raw and escaped characters decodes to the UTF-16 of what was meant, supplementary
   * characters as surrogate pairs; escaped ASCII stays as it was written.
   */
  lemma {:induction false} PathDecodes(s: seq<Byte>, i: nat, end: nat, ps: seq<Piece>)
    requires Delimited(s, end) && i <= end
    requires LegalPieces(ps) && s[i..end] == RenderAll(ps)
    ensures Path(s, i, end, NONE) == MeaningAll(ps)
    decreases |ps|
  {
    hide Render, Meaning, Legal;
    if ps != [] {
      var w, rest := Render(ps[0]), RenderAll(ps[1..]);
      assert |s[i..end]| == |w| + |rest|;
      Cut(s, i, w, rest);
      hide Path;
      PathPiece(s, i, end, ps[0]);
      PathDecodes(s, i + |w|, end, ps[1..]);
    }
  }

  lemma {:induction false} FeedPending(a: Acc, bs: seq<Byte>)
    requires |bs| < a.len
    ensures FeedAll(a, bs).0.len == a.len - |bs| && FeedAll(a, bs).1 == []
    decreases |bs|
  {
    if bs != [] {
      FeedPending(FeedByte(a, bs[0]).0, bs[1..]);
    }
  }

  /** A sequence that is cut off by the end of the path, in whatever form, becomes a question mark. */
  lemma UnfinishedSequence(s: seq<Byte>, i: nat, end: nat, lead: Byte, more: seq<Byte>, fs: seq<Form>)
    requires Delimited(s, end) && i <= end && |fs| == 1 + |more| && s[i..end] == WrittenAll([lead] + more, fs)
    requires 0xC2 <= lead <= 0xF4 && |more| < (if lead <= 0xDF then 1 else if lead <= 0xEF then 2 else 3)
    requires forall k :: 0 <= k < |more| ==> more[k] >= 0x80
    ensures Path(s, i, end, NONE) == [63]
  {
    hide FeedByte, FeedAll, WrittenAll, Path;
    WhatBeginsASequence(lead);
    var a := FeedByte(NONE, lead).0;
    FeedTwo(NONE, lead, more);
    FeedPending(a, more);
    PathBytes(s, i, end, NONE, [lead] + more, fs);
    PathIsCut(s, end, FeedAll(a, more).0);
  }

  lemma PathIsCut(s: seq<Byte>, end: nat, a: Acc)
    requires Delimited(s, end) && a.len > 0
    ensures Path(s, end, end, a) == [63]
  {
  }

  // ---------------------------------------------------------------------------------------
  // In place
  // ---------------------------------------------------------------------------------------

  /** Writes to the shared char buffer; the string is its first `used` units. */
  method ParsePath(buffer: array<Byte>, start: nat, end: nat, chs: array<Unit>) returns (used: nat)
    requires start <= end && Delimited(buffer[..], end) && end + 1 - start <= chs.Length
    modifies chs
    ensures used <= end + 1 - start && chs[..used] == Path(buffer[..], start, end, NONE)
  {
    hide Turn, Delimited;
    ghost var all := Path(buffer[..], start, end, NONE);
    var start, cchlen, cchacc := start, 0, 0;
    used := 0;
    while start < end
      invariant start <= end + 1 && used <= |all| && (cchlen == 0 ==> cchacc == 0)
      invariant all == chs[..used] + Path(buffer[..], start, end, Acc(cchlen, cchacc))
      decreases end + 1 - start
    {
      ghost var done, turn := chs[..used], Turn(buffer[..], start, end, Acc(cchlen, cchacc));
      ghost var rest := Path(buffer[..], turn.0, end, turn.1);
      assert done + (turn.2 + rest) == done + turn.2 + rest;
      start, cchlen, cchacc, used := ParseChar(buffer, start, end, cchlen, cchacc, chs, used);
    }
    if cchlen > 0 {
      chs[used] := QUESTION_MARK;
      used := used + 1;
    }
  }

  /** The body of the loop. */
  method ParseChar(buffer: array<Byte>, start: nat, end: nat, len: nat, acc: nat, chs: array<Unit>, used: nat)
    returns (start': nat, len': nat, acc': nat, used': nat)
    requires Delimited(buffer[..], end) && start < end && (len == 0 ==> acc == 0)
    requires used + |Turn(buffer[..], start, end, Acc(len, acc)).2| <= chs.Length
    modifies chs
    ensures var (i, a, out) := Turn(buffer[..], start, end, Acc(len, acc));
            && start' == i && Acc(len', acc') == a && (len' == 0 ==> acc' == 0)
            && used' <= chs.Length && chs[..used'] == old(chs[..used]) + out
  {
    hide FeedByte, ParseHexChar;
    ghost var done := chs[..used];
    var ch := buffer[start];
    start' := start + 1;
    len', acc', used' := len, acc, used;
    var cch := ch;
    if ch == PERCENT {
      ch := buffer[start'];
      start' := start' + 1;
      var v1 := ParseHexChar(ch);
      if v1 < 0 {
        chs[used], chs[used + 1] := PERCENT, ch;
        used' := used + 2;
        assert chs[..used'] == done + [PERCENT, ch];
        return;
      }
      var v2 := ParseHexChar(buffer[start']);
      start' := start' + 1;
      if v2 < 0 || v1 < 8 {
        chs[used], chs[used + 1], chs[used + 2] := PERCENT, ch, buffer[start' - 1];
        used' := used + 3;
        assert chs[..used'] == done + [PERCENT, ch, buffer[start' - 1]];
        return;
      }
      HexBelow16(ch);
      HexBelow16(buffer[start' - 1]);
      cch := v1 * 16 + v2;
    }
    len', acc', used' := FeedChar(len, acc, cch, chs, used);
  }

  lemma HexBelow16(c: Byte)
    ensures ParseHexChar(c) < 16
  {
  }

  method FeedChar(len: nat, acc: nat, cch: Byte, chs: array<Unit>, used: nat) returns (len': nat, acc': nat, used': nat)
    requires used + |FeedByte(Acc(len, acc), cch).1| <= chs.Length && (len == 0 ==> acc == 0)
    modifies chs
    ensures Acc(len', acc') == FeedByte(Acc(len, acc), cch).0 && (len' == 0 ==> acc' == 0)
    ensures used' <= chs.Length && chs[..used'] == old(chs[..used]) + FeedByte(Acc(len, acc), cch).1
  {
    ghost var done := chs[..used];
    len', acc', used' := len, acc, used;
    if len == 0 {
      if cch < 194 || cch >= 245 {
        chs[used] := cch;
        used' := used + 1;
      } else if cch < 224 {
        len', acc' := 1, cch - 192;
      } else if cch < 240 {
        len', acc' := 2, cch - 224;
      } else {
        len', acc' := 3, cch - 240;
      }
    } else {
      len', acc' := len - 1, acc * 64 + cch % 64;
      if len' == 0 {
        if acc' < 0x1_0000 {
          chs[used] := ToChar(acc');
          used' := used + 1;
        } else {
          acc' := acc' - 0x1_0000;
          chs[used] := ToChar(0xD800 + acc' / 1024);
          chs[used + 1] := ToChar(0xDC00 + acc' % 1024);
          used' := used + 2;
        }
        acc' := 0;
      }
    }
    assert chs[..used] == done;
  }
}
