/** In-place encoders over the connection buffer (Nowin/Transport2HttpHandler.cs:759-768, 887-920). */
module ChunkEncoder {
  import opened Bytes
  import opened Chunked
  import opened ChunkedBody

  function HexDigit(h: nat): Byte
    requires h < 16
  {
    if h < 10 then h + '0' as int else h + 'A' as int - 10
  }

  function HexDigits(n: nat): (digits: seq<Byte>)
    ensures digits != []
  {
    if n < 16 then [HexDigit(n)] else HexDigits(n / 16) + [HexDigit(n % 16)]
  }

  /** One chunk as the server writes it. */
  function EncodeChunk(data: seq<Byte>): seq<Byte> {
    HexDigits(|data|) + CRLF + data + CRLF
  }

  const ZERO_CHUNK: seq<Byte> := ['0' as int, CR, LF, CR, LF]

  function EncodeChunks(blocks: seq<seq<Byte>>): seq<Byte> {
    if blocks == [] then [] else EncodeChunk(blocks[0]) + EncodeChunks(blocks[1..])
  }

  // ---------------------------------------------------------------------------------------
  // The encoder writes what the decoder reads
  // ---------------------------------------------------------------------------------------

  lemma {:induction false} HexValueSnoc(acc: nat, digits: seq<Byte>, last: Byte)
    requires AllHex(digits) && IsHex(last)
    ensures AllHex(digits + [last])
    ensures HexValue(acc, digits + [last]) == HexValue(acc, digits) * 16 + ParseHexChar(last)
    decreases |digits|
  {
    if digits == [] {
      assert digits + [last] == [last];
      assert HexValue(acc * 16 + ParseHexChar(last), []) == acc * 16 + ParseHexChar(last);
    } else {
      HexValueSnoc(acc * 16 + ParseHexChar(digits[0]), digits[1..], last);
      assert (digits + [last])[1..] == digits[1..] + [last];
    }
  }

  lemma {:induction false} HexDigitsValue(n: nat)
    ensures AllHex(HexDigits(n)) && HexValue(0, HexDigits(n)) == n
  {
    if n < 16 {
      assert HexDigits(n)[1..] == [];
      assert HexValue(n, []) == n;
    } else {
      HexDigitsValue(n / 16);
      HexValueSnoc(0, HexDigits(n / 16), HexDigit(n % 16));
    }
  }

  /** A block of at most 65536 bytes needs at most five size digits. */
  lemma HexDigitsLength(n: nat)
    requires n <= 65536
    ensures |HexDigits(n)| <= 5
  {
    var n1, n2, n3 := n / 16, n / 16 / 16, n / 16 / 16 / 16;
    assert |HexDigits(n3)| <= 2 by {
      assert n3 / 16 < 16;
    }
    assert |HexDigits(n2)| <= 3;
    assert |HexDigits(n1)| <= 4;
  }

  function AsWireChunks(blocks: seq<seq<Byte>>): seq<WireChunk> {
    seq(|blocks|, i requires 0 <= i < |blocks| => WireChunk(HexDigits(|blocks[i]|), [], blocks[i]))
  }

  predicate Sendable(blocks: seq<seq<Byte>>) {
    forall i :: 0 <= i < |blocks| ==> 0 < |blocks[i]| < TWO63
  }

  lemma {:induction false} WireChunksOf(blocks: seq<seq<Byte>>)
    requires Sendable(blocks)
    ensures ValidChunks(AsWireChunks(blocks))
    ensures RenderChunks(AsWireChunks(blocks)) == EncodeChunks(blocks)
    ensures Payload(AsWireChunks(blocks)) == Concat(blocks)
  {
    var chunks := AsWireChunks(blocks);
    forall i | 0 <= i < |blocks|
      ensures ValidChunk(chunks[i])
    {
      HexDigitsValue(|blocks[i]|);
    }
    if blocks != [] {
      WireChunksOf(blocks[1..]);
      assert chunks[1..] == AsWireChunks(blocks[1..]);
      var b := blocks[0];
      assert HexDigits(|b|) + [] == HexDigits(|b|);
      assert RenderChunk(chunks[0]) == EncodeChunk(b);
    }
  }

  /** Round trip of the whole body: blocks, then the zero chunk, then whatever follows. */
  lemma EncodedBodyDecodes(blocks: seq<seq<Byte>>, s: seq<Byte>)
    requires Sendable(blocks)
    ensures Decode(START, EncodeChunks(blocks) + ZERO_CHUNK + s) == Decoded(ENDED, Concat(blocks), s)
  {
    hide Decode, RenderChunks, EncodeChunks, Concat, Payload, AsWireChunks;
    WireChunksOf(blocks);
    HexDigitsValue(0);
    var zero: Byte := '0' as int;
    var body := WireBody(AsWireChunks(blocks), [zero], [], []);
    assert HexDigits(0) == [zero];
    BodyDecodes(body, s);
    assert RenderTrailers([]) == [];
    assert Render(body) == EncodeChunks(blocks) + ZERO_CHUNK;
  }

  /** Without the zero chunk the body never ends. */
  lemma UnterminatedBody(blocks: seq<seq<Byte>>)
    requires Sendable(blocks)
    ensures Decode(START, EncodeChunks(blocks)) == Decoded(START, Concat(blocks), [])
  {
    hide RenderChunks, EncodeChunks, Payload, AsWireChunks;
    WireChunksOf(blocks);
    ChunksDecode(AsWireChunks(blocks), []);
    assert EncodeChunks(blocks) + [] == EncodeChunks(blocks);
    assert Concat(blocks) + [] == Concat(blocks);
  }

  lemma {:induction false} EncodeChunksAppend(blocks: seq<seq<Byte>>, last: seq<Byte>)
    ensures EncodeChunks(blocks + [last]) == EncodeChunks(blocks) + EncodeChunk(last)
  {
    if blocks == [] {
      assert blocks + [last] == [last] && [last][1..] == [];
      assert EncodeChunk(last) + EncodeChunks([]) == EncodeChunk(last);
    } else {
      EncodeChunksAppend(blocks[1..], last);
      assert (blocks + [last])[0] == blocks[0] && (blocks + [last])[1..] == blocks[1..] + [last];
    }
  }

  // ---------------------------------------------------------------------------------------
  // The encoders
  // ---------------------------------------------------------------------------------------

  /** The do-while of WrapInChunk: the size digits, written backwards from `end`. */
  method WriteDigitsBefore(buffer: array<Byte>, end: nat, n: nat) returns (offset: nat)
    requires |HexDigits(n)| <= end <= buffer.Length
    modifies buffer
    ensures offset == end - |HexDigits(n)|
    ensures buffer[offset..end] == HexDigits(n)
    ensures forall i :: 0 <= i < buffer.Length && !(offset <= i < end) ==> buffer[i] == old(buffer[i])
  {
    var l: nat := n;
    offset := end;
    while true
      invariant offset <= end
      invariant HexDigits(n) == HexDigits(l) + buffer[offset..end]
      invariant forall i :: 0 <= i < buffer.Length && !(offset <= i < end) ==> buffer[i] == old(buffer[i])
      decreases l
    {
      var h := l % 16;
      ghost var written := buffer[offset..end];
      offset := offset - 1;
      buffer[offset] := HexDigit(h);
      assert buffer[offset..end] == [HexDigit(h)] + written;
      if l / 16 == 0 {
        break;
      }
      assert HexDigits(l) + written == HexDigits(l / 16) + ([HexDigit(h)] + written);
      l := l / 16;
    }
  }

  /** CR LF on both sides of the block. */
  method SurroundBlock(buffer: array<Byte>, startOffset: nat, len: nat)
    requires 2 <= startOffset && startOffset + len + 2 <= buffer.Length
    modifies buffer
    ensures buffer[startOffset - 2..startOffset + len + 2] == CRLF + old(buffer[startOffset..startOffset + len]) + CRLF
    ensures forall i :: 0 <= i < buffer.Length && !(startOffset - 2 <= i < startOffset + len + 2)
                        ==> buffer[i] == old(buffer[i])
  {
    var o := startOffset;
    buffer[o + len] := CR;
    buffer[o + len + 1] := LF;
    o := o - 1;
    buffer[o] := LF;
    o := o - 1;
    buffer[o] := CR;
  }

  /** Surrounds the block at [startOffset, startOffset + len) with its chunk framing. */
  method WrapInChunk(buffer: array<Byte>, startOffset: nat, len: nat) returns (offset: nat, length: nat)
    requires |HexDigits(len)| + 2 <= startOffset && startOffset + len + 2 <= buffer.Length
    modifies buffer
    ensures offset == startOffset - 2 - |HexDigits(len)|
    ensures offset + length == startOffset + len + 2
    ensures buffer[offset..offset + length] == EncodeChunk(old(buffer[startOffset..startOffset + len]))
    ensures forall i :: 0 <= i < buffer.Length && !(offset <= i < offset + length) ==> buffer[i] == old(buffer[i])
  {
    hide HexDigits;
    ghost var data := buffer[startOffset..startOffset + len];
    var o := startOffset - 2;
    SurroundBlock(buffer, startOffset, len);
    label framed:
    offset := WriteDigitsBefore(buffer, o, len);
    length := startOffset + len + 2 - offset;
    assert buffer[o..startOffset + len + 2] == old@framed(buffer[o..startOffset + len + 2]);
    assert buffer[offset..offset + length] == buffer[offset..o] + buffer[o..offset + length];
    assert EncodeChunk(data) == HexDigits(len) + (CRLF + data + CRLF);
  }

  method AppendZeroChunk(buffer: array<Byte>, offset: nat, len: nat) returns (length: nat)
    requires offset + len + 5 <= buffer.Length
    modifies buffer
    ensures length == len + 5
    ensures buffer[offset..offset + length] == old(buffer[offset..offset + len]) + ZERO_CHUNK
    ensures forall i :: 0 <= i < buffer.Length && !(offset + len <= i < offset + length) ==> buffer[i] == old(buffer[i])
  {
    var o := offset + len;
    buffer[o] := '0' as int;
    buffer[o + 1] := CR;
    buffer[o + 2] := LF;
    buffer[o + 3] := CR;
    buffer[o + 4] := LF;
    length := len + 5;
  }

  /** Makes region 1 directly precede region 2, moving whichever is shorter. */
  method OptimallyMergeTwoRegions(buffer: array<Byte>, o1: nat, l1: nat, o2: nat, l2: nat)
    returns (offset: nat, length: nat)
    requires o1 + l1 <= o2 && o2 + l2 <= buffer.Length && o1 + l1 + l2 <= buffer.Length
    modifies buffer
    ensures length == l1 + l2 && o1 <= offset && offset + length <= buffer.Length
    ensures buffer[offset..offset + length] == old(buffer[o1..o1 + l1]) + old(buffer[o2..o2 + l2])
    ensures l1 < l2 ==> offset + length == o2 + l2
    ensures l1 >= l2 ==> offset == o1
    ensures forall i :: 0 <= i < buffer.Length && !(offset <= i < offset + length) ==> buffer[i] == old(buffer[i])
  {
    if l1 < l2 {
      offset := o2 - l1;
      MoveUp(buffer, o1, l1, o2, l2);
    } else {
      offset := o1;
      MoveDown(buffer, o1, l1, o2, l2);
    }
    length := l2 + l1;
  }

  method MoveUp(buffer: array<Byte>, o1: nat, l1: nat, o2: nat, l2: nat)
    requires o1 + l1 <= o2 && o2 + l2 <= buffer.Length
    modifies buffer
    ensures buffer[o2 - l1..o2 + l2] == old(buffer[o1..o1 + l1]) + old(buffer[o2..o2 + l2])
    ensures forall i :: 0 <= i < buffer.Length && !(o2 - l1 <= i < o2) ==> buffer[i] == old(buffer[i])
  {
    MoveBlock(buffer, o1, o2 - l1, l1);
    assert buffer[o2..o2 + l2] == old(buffer[o2..o2 + l2]);
    Joined(buffer, o2 - l1, o2, o2 + l2);
  }

  method MoveDown(buffer: array<Byte>, o1: nat, l1: nat, o2: nat, l2: nat)
    requires o1 + l1 <= o2 && o2 + l2 <= buffer.Length
    modifies buffer
    ensures buffer[o1..o1 + l1 + l2] == old(buffer[o1..o1 + l1]) + old(buffer[o2..o2 + l2])
    ensures forall i :: 0 <= i < buffer.Length && !(o1 + l1 <= i < o1 + l1 + l2) ==> buffer[i] == old(buffer[i])
  {
    MoveBlock(buffer, o2, o1 + l1, l2);
    assert buffer[o1..o1 + l1] == old(buffer[o1..o1 + l1]);
    Joined(buffer, o1, o1 + l1, o1 + l1 + l2);
  }

}
