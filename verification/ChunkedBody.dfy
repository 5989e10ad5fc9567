/** Well-formed chunked bodies (section 4.1 of RFC 7230) and what the decoder makes of them. */
module ChunkedBody {
  import opened Bytes
  import opened Chunked

  predicate IsHex(b: Byte) { ParseHexChar(b) >= 0 }

  predicate AllHex(digits: seq<Byte>) {
    forall i :: 0 <= i < |digits| ==> IsHex(digits[i])
  }

  /** The number written by `digits` behind the digits already summed up in `acc`. */
  function HexValue(acc: nat, digits: seq<Byte>): (n: nat)
    requires AllHex(digits)
    ensures n >= acc
    decreases |digits|
  {
    if digits == [] then acc else HexValue(acc * 16 + ParseHexChar(digits[0]), digits[1..])
  }

  /** A chunk as it stands on the wire: any spelling of the size, any extension without CR. */
  datatype WireChunk = WireChunk(digits: seq<Byte>, ext: seq<Byte>, data: seq<Byte>)

  predicate ValidSizeLine(digits: seq<Byte>, ext: seq<Byte>, size: nat) {
    && digits != []
    && AllHex(digits)
    && HexValue(0, digits) == size < TWO63
    && CR !in ext
    && (ext != [] ==> !IsHex(ext[0]))
  }

  predicate ValidChunk(c: WireChunk) {
    c.data != [] && ValidSizeLine(c.digits, c.ext, |c.data|)
  }

  predicate ValidChunks(chunks: seq<WireChunk>) {
    forall i :: 0 <= i < |chunks| ==> ValidChunk(chunks[i])
  }

  datatype WireBody =
    WireBody(chunks: seq<WireChunk>, zeros: seq<Byte>, ext: seq<Byte>, trailers: seq<seq<Byte>>)

  predicate ValidTrailer(line: seq<Byte>) { line != [] && CR !in line }

  predicate ValidTrailers(trailers: seq<seq<Byte>>) {
    forall i :: 0 <= i < |trailers| ==> ValidTrailer(trailers[i])
  }

  predicate ValidBody(body: WireBody) {
    && ValidChunks(body.chunks)
    && ValidSizeLine(body.zeros, body.ext, 0)
    && ValidTrailers(body.trailers)
  }

  function RenderChunk(c: WireChunk): seq<Byte> {
    c.digits + c.ext + CRLF + c.data + CRLF
  }

  function RenderChunks(chunks: seq<WireChunk>): seq<Byte> {
    if chunks == [] then [] else RenderChunk(chunks[0]) + RenderChunks(chunks[1..])
  }

  function RenderTrailers(trailers: seq<seq<Byte>>): seq<Byte> {
    if trailers == [] then [] else trailers[0] + CRLF + RenderTrailers(trailers[1..])
  }

  function Render(body: WireBody): seq<Byte> {
    RenderChunks(body.chunks) + (body.zeros + body.ext + CRLF) + RenderTrailers(body.trailers) + CRLF
  }

  function Payload(chunks: seq<WireChunk>): seq<Byte> {
    if chunks == [] then [] else chunks[0].data + Payload(chunks[1..])
  }

  // ---------------------------------------------------------------------------------------
  // Runs of equal-minded bytes
  // ---------------------------------------------------------------------------------------

  /** A framing byte changes the decoder and yields nothing. */
  lemma FramingByte(d: Decoder, b: Byte, s: seq<Byte>)
    requires Sound(d) && Available(d) == 0
    ensures Decode(d, [b] + s) == Decode(Advance(d, b).0, s)
  {
    assert ([b] + s)[1..] == s;
    var r := Decode(Advance(d, b).0, s);
    assert [] + r.out == r.out;
  }

  lemma LineEnd(d: Decoder, s: seq<Byte>)
    requires d.dataAvail == 0 && d.state in {InHex, AfterHex, InData, InTrailer, AfterLF2}
    ensures Decode(d, CRLF + s) == Decode(Advance(Advance(d, CR).0, LF).0, s)
  {
    hide Decode;
    FramingByte(d, CR, [LF] + s);
    FramingByte(Advance(d, CR).0, LF, s);
    assert CRLF + s == [CR] + ([LF] + s);
  }

  lemma {:induction false} SizeDigits(d: Decoder, digits: seq<Byte>, s: seq<Byte>)
    requires d.state == InHex && d.dataAvail == 0 && d.nextAvail >= 0
    requires AllHex(digits)
    requires HexValue(d.nextAvail, digits) < TWO63
    ensures Decode(d, digits + s) == Decode(d.(nextAvail := HexValue(d.nextAvail, digits)), s)
    decreases |digits|
  {
    hide Decode;
    if digits == [] {
      assert digits + s == s;
    } else {
      FramingByte(d, digits[0], digits[1..] + s);
      assert digits + s == [digits[0]] + (digits[1..] + s);
      SizeDigits(Advance(d, digits[0]).0, digits[1..], s);
    }
  }

  lemma {:induction false} SkippedBytes(d: Decoder, skipped: seq<Byte>, s: seq<Byte>)
    requires d.state in {AfterHex, InTrailer} && d.dataAvail == 0
    requires CR !in skipped
    ensures Decode(d, skipped + s) == Decode(d, s)
    decreases |skipped|
  {
    hide Decode;
    if skipped == [] {
      assert skipped + s == s;
    } else {
      FramingByte(d, skipped[0], skipped[1..] + s);
      assert skipped + s == [skipped[0]] + (skipped[1..] + s);
      SkippedBytes(d, skipped[1..], s);
    }
  }

  /**
   * A CR ends a size line only together with the LF behind it. With any other byte behind it, a second CR
   * included, both are skipped.
   */
  lemma StrayCrIsSkipped(d: Decoder, b: Byte, s: seq<Byte>)
    requires d.state in {InHex, AfterHex} && d.dataAvail == 0
    ensures b != 10 ==> Decode(d, [13, b] + s) == Decode(Decoder(AfterHex, d.nextAvail, 0), s)
    ensures b == 10 ==> Decode(d, [13, b] + s) == Decode(Decoder(InData, d.nextAvail, d.nextAvail), s)
  {
    hide Decode;
    assert [13, b] + s == [CR] + ([b] + s);
    FramingByte(d, CR, [b] + s);
    FramingByte(Advance(d, CR).0, b, s);
  }

  lemma DataByte(d: Decoder, b: Byte, s: seq<Byte>)
    requires Sound(d) && d.dataAvail > 0
    ensures var r := Decode(d.(dataAvail := d.dataAvail - 1), s);
            Decode(d, [b] + s) == r.(out := [b] + r.out)
  {
    assert ([b] + s)[1..] == s;
    assert Eat(d, 1) == d.(dataAvail := d.dataAvail - 1);
  }

  lemma {:induction false} PayloadBytes(d: Decoder, data: seq<Byte>, s: seq<Byte>)
    requires Sound(d) && d.dataAvail == |data|
    ensures var r := Decode(d.(dataAvail := 0), s);
            Decode(d, data + s) == r.(out := data + r.out)
    decreases |data|
  {
    hide Decode;
    if data == [] {
      assert data + s == s;
      assert d.(dataAvail := 0) == d;
    } else {
      var less := d.(dataAvail := d.dataAvail - 1);
      DataByte(d, data[0], data[1..] + s);
      assert data + s == [data[0]] + (data[1..] + s);
      PayloadBytes(less, data[1..], s);
      assert less.(dataAvail := 0) == d.(dataAvail := 0);
      var r := Decode(d.(dataAvail := 0), s);
      assert [data[0]] + (data[1..] + r.out) == data + r.out;
    }
  }

  // ---------------------------------------------------------------------------------------
  // Whole lines, chunks, bodies
  // ---------------------------------------------------------------------------------------

  /** When its size line ends, the decoder reports exactly the size of the chunk. */
  lemma SizeLine(digits: seq<Byte>, ext: seq<Byte>, size: nat, s: seq<Byte>)
    requires ValidSizeLine(digits, ext, size)
    ensures Decode(START, digits + ext + CRLF + s) == Decode(Decoder(InData, size, size), s)
  {
    hide Decode;
    var sized := Decoder(InHex, size, 0);
    assert digits + ext + CRLF + s == digits + (ext + CRLF + s);
    SizeDigits(START, digits, ext + CRLF + s);
    if ext == [] {
      assert ext + CRLF + s == CRLF + s;
      LineEnd(sized, s);
    } else {
      assert ext + CRLF + s == [ext[0]] + (ext[1..] + (CRLF + s));
      FramingByte(sized, ext[0], ext[1..] + (CRLF + s));
      var after := Decoder(AfterHex, size, 0);
      SkippedBytes(after, ext[1..], CRLF + s);
      LineEnd(after, s);
    }
  }

  lemma ChunkDecodes(c: WireChunk, s: seq<Byte>)
    requires ValidChunk(c)
    ensures var r := Decode(START, s);
            Decode(START, RenderChunk(c) + s) == r.(out := c.data + r.out)
  {
    hide Decode;
    var n := |c.data|;
    assert RenderChunk(c) + s == c.digits + c.ext + CRLF + (c.data + (CRLF + s));
    SizeLine(c.digits, c.ext, n, c.data + (CRLF + s));
    PayloadBytes(Decoder(InData, n, n), c.data, CRLF + s);
    LineEnd(Decoder(InData, n, 0), s);
  }

  lemma {:induction false} ChunksDecode(chunks: seq<WireChunk>, s: seq<Byte>)
    requires ValidChunks(chunks)
    ensures var r := Decode(START, s);
            Decode(START, RenderChunks(chunks) + s) == r.(out := Payload(chunks) + r.out)
  {
    hide Decode;
    if chunks == [] {
      assert RenderChunks(chunks) + s == s;
    } else {
      var tail := RenderChunks(chunks[1..]) + s;
      ChunksDecode(chunks[1..], s);
      ChunkDecodes(chunks[0], tail);
      PrependData(chunks[0], chunks[1..], s, Decode(START, s).out);
      assert [chunks[0]] + chunks[1..] == chunks;
    }
  }

  lemma PrependData(c: WireChunk, chunks: seq<WireChunk>, s: seq<Byte>, out: seq<Byte>)
    ensures RenderChunks([c] + chunks) + s == RenderChunk(c) + (RenderChunks(chunks) + s)
    ensures Payload([c] + chunks) + out == c.data + (Payload(chunks) + out)
  {
    assert ([c] + chunks)[1..] == chunks;
  }

  const ENDED := Decoder(End, 0, -1)

  lemma DecodeEnded(s: seq<Byte>)
    ensures Decode(ENDED, s) == Decoded(ENDED, [], s)
  {
  }

  lemma {:induction false} TrailersDecode(d: Decoder, trailers: seq<seq<Byte>>, s: seq<Byte>)
    requires d == Decoder(InData, 0, 0) || d == Decoder(AfterLF2, 0, 0)
    requires ValidTrailers(trailers)
    ensures Decode(d, RenderTrailers(trailers) + CRLF + s) == Decoded(ENDED, [], s)
    decreases |trailers|
  {
    hide Decode;
    if trailers == [] {
      assert RenderTrailers(trailers) + CRLF + s == CRLF + s;
      LineEnd(d, s);
      DecodeEnded(s);
    } else {
      var t := trailers[0];
      var next := RenderTrailers(trailers[1..]) + CRLF + s;
      assert RenderTrailers(trailers) + CRLF + s == [t[0]] + (t[1..] + (CRLF + next));
      FramingByte(d, t[0], t[1..] + (CRLF + next));
      var inside := Decoder(InTrailer, 0, 0);
      SkippedBytes(inside, t[1..], CRLF + next);
      LineEnd(inside, next);
      TrailersDecode(Decoder(AfterLF2, 0, 0), trailers[1..], s);
    }
  }

  /** Every well-formed body decodes to its payload and leaves exactly what follows it. */
  lemma BodyDecodes(body: WireBody, s: seq<Byte>)
    requires ValidBody(body)
    ensures Decode(START, Render(body) + s) == Decoded(ENDED, Payload(body.chunks), s)
  {
    hide Decode;
    var tail := RenderTrailers(body.trailers) + CRLF + s;
    var line := body.zeros + body.ext + CRLF;
    assert Render(body) + s == RenderChunks(body.chunks) + (line + tail);
    ChunksDecode(body.chunks, line + tail);
    SizeLine(body.zeros, body.ext, 0, tail);
    TrailersDecode(Decoder(InData, 0, 0), body.trailers, s);
    assert Payload(body.chunks) + [] == Payload(body.chunks);
  }

  /** No byte before the final LF ends the body; the final LF does. */
  lemma EndsOnFinalByte(body: WireBody, n: nat)
    requires ValidBody(body) && n <= |Render(body)|
    ensures Decode(START, Render(body)[..n]).d.state == End <==> n == |Render(body)|
    ensures Finished(Decode(START, Render(body)[..n]).d) <==> n == |Render(body)|
  {
    hide Decode, Render, ValidBody;
    var wire := Render(body);
    BodyDecodes(body, []);
    assert wire + [] == wire;
    if n == |wire| {
      assert wire[..n] == wire;
    } else {
      assert wire[..n] + wire[n..] == wire;
      DecodeSplit(START, wire[..n], wire[n..]);
    }
  }
}
