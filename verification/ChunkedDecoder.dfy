/** The byte-driven decoder of chunked request bodies (Nowin/ChunkedDecoder.cs). */
module Chunked {
  import opened Bytes

  // C# `long` and `int`, unchecked: results wrap, casts keep the low bits.

  type Long = x: int | -TWO63 <= x < TWO63 witness 0

  function WrapLong(x: int): Long {
    (x + TWO63) % (2 * TWO63) - TWO63
  }

  function CastToInt(x: int): int {
    (x + TWO31) % (2 * TWO31) - TWO31
  }

  function ParseHexChar(ch: Byte): (h: int)
    ensures -1 <= h <= 15
  {
    if '0' as int <= ch <= '9' as int then ch - '0' as int
    else if 'A' as int <= ch <= 'F' as int then ch - 'A' as int + 10
    else if 'a' as int <= ch <= 'f' as int then ch - 'a' as int + 10
    else -1
  }

  datatype State =
    | InHex | AfterHex | AfterCR | InData | AfterCR2 | AfterLF2 | AfterCR3 | End | InTrailer | AfterTrailerCR

  /** The three fields of the decoder as one value. */
  datatype Decoder = Decoder(state: State, nextAvail: Long, dataAvail: Long)

  const START := Decoder(InHex, 0, 0)

  function Available(d: Decoder): int {
    if d.dataAvail > TWO31 - 1 then TWO31 - 1 else CastToInt(d.dataAvail)
  }

  /** The caller sees the 64-bit counter itself wherever an int can hold it, and else as much as an int can. */
  lemma WhatIsAvailable(d: Decoder)
    ensures -0x8000_0000 <= d.dataAvail <= 0x7FFF_FFFF ==> Available(d) == d.dataAvail
    ensures d.dataAvail >= 0x8000_0000 ==> Available(d) == 0x7FFF_FFFF
    ensures d.dataAvail < -0x8000_0000 ==>
              -0x8000_0000 <= Available(d) <= 0x7FFF_FFFF && (Available(d) - d.dataAvail) % 0x1_0000_0000 == 0
  {
    if d.dataAvail < -0x8000_0000 {
      var x := d.dataAvail + TWO31;
      var q := x / (2 * TWO31);
      assert x % (2 * TWO31) == x - q * (2 * TWO31);
      assert Available(d) - d.dataAvail == -q * 0x1_0000_0000;
    }
  }

  predicate Finished(d: Decoder) {
    Available(d) < 0
  }

  /** A decoder that reached its end never looks at another byte. */
  predicate Sound(d: Decoder) {
    d.state == End ==> d.dataAvail == -1
  }

  /** The effect of one ProcessByte call: the new fields and the returned flag. */
  function Advance(d: Decoder, b: Byte): (r: (Decoder, bool))
    requires d.state != End
    ensures Sound(r.0) && (r.1 <==> r.0.state == End)
  {
    match d.state
    case InHex =>
      var h := ParseHexChar(b);
      if h >= 0 then (d.(nextAvail := WrapLong(d.nextAvail * 16 + h)), false)
      else (d.(state := if b == CR then AfterCR else AfterHex), false)
    case AfterHex => (d.(state := if b == CR then AfterCR else AfterHex), false)
    case AfterCR =>
      if b == LF then (d.(state := InData, dataAvail := d.nextAvail), false)
      else (d.(state := AfterHex), false)
    case InData => (d.(state := if b == CR then AfterCR2 else InTrailer), false)
    case AfterCR2 =>
      if d.nextAvail == 0 then (d.(state := End, dataAvail := -1), true)
      else (d.(state := InHex, nextAvail := 0), false)
    case AfterLF2 => (d.(state := if b == CR then AfterCR3 else InTrailer), false)
    case InTrailer => (d.(state := if b == CR then AfterTrailerCR else InTrailer), false)
    case AfterTrailerCR => (d.(state := AfterLF2), false)
    case AfterCR3 => (d.(state := End, dataAvail := -1), true)
  }

  /** The effect of DataEatten. */
  function Eat(d: Decoder, count: int): Decoder {
    d.(dataAvail := WrapLong(d.dataAvail - count))
  }

  class ChunkedDecoder {
    var dataAvail: Long
    var nextAvail: Long
    var state: State

    function Value(): Decoder
      reads this
    {
      Decoder(state, nextAvail, dataAvail)
    }

    constructor ()
      ensures Value() == START
    {
      dataAvail, nextAvail, state := 0, 0, InHex;
    }

    method Reset()
      modifies this
      ensures Value() == START
    {
      dataAvail := 0;
      nextAvail := 0;
      state := InHex;
    }

    method DataAvailable() returns (n: int)
      ensures n == Available(Value())
      ensures -TWO31 <= n < TWO31
    {
      if dataAvail > TWO31 - 1 {
        return TWO31 - 1;
      }
      return CastToInt(dataAvail);
    }

    method ProcessByte(b: Byte) returns (finished: bool)
      requires state != End
      modifies this
      ensures (Value(), finished) == Advance(old(Value()), b)
    {
      match state {
        case InHex =>
          var h := ParseHexChar(b);
          if h < 0 {
            state := AfterHex;
            if b == CR {
              state := AfterCR;
            }
          } else {
            nextAvail := WrapLong(nextAvail * 16 + h);
          }
        case AfterHex =>
          if b == CR {
            state := AfterCR;
          }
        case AfterCR =>
          if b == LF {
            state := InData;
            dataAvail := nextAvail;
          } else {
            state := AfterHex;
          }
        case InData =>
          state := if b == CR then AfterCR2 else InTrailer;
        case AfterCR2 =>
          if nextAvail == 0 {
            state := End;
            dataAvail := -1;
            return true;
          }
          state := InHex;
          nextAvail := 0;
        case AfterLF2 =>
          state := if b == CR then AfterCR3 else InTrailer;
        case InTrailer =>
          if b == CR {
            state := AfterTrailerCR;
          }
        case AfterTrailerCR =>
          state := AfterLF2;
        case AfterCR3 =>
          state := End;
          dataAvail := -1;
          return true;
      }
      return false;
    }

    method DataEatten(count: int)
      modifies this
      ensures Value() == Eat(old(Value()), count)
    {
      dataAvail := WrapLong(dataAvail - count);
    }
  }

  // ---------------------------------------------------------------------------------------
  // What a decoder makes of a byte stream
  // ---------------------------------------------------------------------------------------

  /** One byte of the wire: payload while data is available, framing otherwise. */
  function Feed(d: Decoder, b: Byte): (r: (Decoder, seq<Byte>))
    requires Sound(d) && !Finished(d)
    ensures Sound(r.0) && |r.1| <= 1
  {
    if Available(d) > 0 then (Eat(d, 1), [b]) else (Advance(d, b).0, [])
  }

  /** Everything decoded from `s`; `rest` is what follows the end of the body. */
  datatype Decoded = Decoded(d: Decoder, out: seq<Byte>, rest: seq<Byte>)

  function Decode(d: Decoder, s: seq<Byte>): (r: Decoded)
    requires Sound(d)
    ensures Sound(r.d)
    decreases |s|
  {
    if s == [] || Finished(d) then Decoded(d, [], s)
    else
      var (d', o) := Feed(d, s[0]);
      var r := Decode(d', s[1..]);
      Decoded(r.d, o + r.out, r.rest)
  }

  lemma {:induction false} DecodeRest(d: Decoder, s: seq<Byte>)
    requires Sound(d)
    ensures Finished(Decode(d, s).d) || Decode(d, s).rest == []
    decreases |s|
  {
    if s != [] && !Finished(d) {
      DecodeRest(Feed(d, s[0]).0, s[1..]);
    }
  }

  /** Decoding does not depend on where the stream is cut. */
  lemma {:induction false} DecodeSplit(d: Decoder, a: seq<Byte>, b: seq<Byte>)
    requires Sound(d)
    ensures var r := Decode(d, a);
            if Finished(r.d) then Decode(d, a + b) == r.(rest := r.rest + b)
            else Decode(d, a + b) == var q := Decode(r.d, b); q.(out := r.out + q.out)
    decreases |a|
  {
    if a == [] {
      assert a + b == b;
    } else if Finished(d) {
    } else {
      assert (a + b)[0] == a[0] && (a + b)[1..] == a[1..] + b;
      DecodeSplit(Feed(d, a[0]).0, a[1..], b);
      DecodeRest(d, a);
    }
  }
}
