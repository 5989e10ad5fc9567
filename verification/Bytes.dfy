/** Bytes, byte arrays and the block copy that every other module works with. */
module Bytes {

  datatype Option<+T> = None | Some(value: T)

  type Byte = x: int | 0 <= x < 256

  const TWO31: int := 0x8000_0000
  const TWO32: int := 0x1_0000_0000
  const TWO63: int := 0x8000_0000_0000_0000
  const TWO64: int := 0x1_0000_0000_0000_0000
  const ULONG_MAX: nat := 0xFFFF_FFFF_FFFF_FFFF

  const CR: Byte := 13
  const LF: Byte := 10
  const CRLF: seq<Byte> := [CR, LF]

  /** `(byte)ch` for every character of a text: only the low eight bits survive. */
  function Latin1(text: string): (bytes: seq<Byte>)
    ensures |bytes| == |text|
    ensures forall i :: 0 <= i < |text| ==> bytes[i] == text[i] as int % 256
  {
    seq(|text|, i requires 0 <= i < |text| => text[i] as int % 256)
  }

  /** A code point that UTF-8 writes in more than one byte (section 3 of RFC 3629). */
  predicate Scalar(point: nat) {
    0x80 <= point < 0x11_0000 && !(0xD800 <= point < 0xE000)
  }

  function Utf8(point: nat): (bs: seq<Byte>)
    requires Scalar(point)
    ensures forall i :: 0 <= i < |bs| ==> bs[i] >= 0x80
  {
    if point < 0x800 then [192 + point / 64, 128 + point % 64]
    else if point < 0x1_0000 then [224 + point / 4096, 128 + point / 64 % 64, 128 + point % 64]
    else [240 + point / 262144, 128 + point / 4096 % 64, 128 + point / 64 % 64, 128 + point % 64]
  }

  /** Encoding.UTF8.GetBytes */
  function Utf8Text(text: string): seq<Byte> {
    if text == "" then []
    else (if text[0] as int < 0x80 then [text[0] as int] else Utf8(text[0] as int)) + Utf8Text(text[1..])
  }

  // ---------------------------------------------------------------------------------------
  // Letters whose case does not matter
  // ---------------------------------------------------------------------------------------

  /** The capital letters of Latin-1 that have a small one: A to Z, and the accented ones around the times sign. */
  predicate Capital(c: Byte) {
    65 <= c <= 90 || 192 <= c <= 214 || 216 <= c <= 222
  }

  predicate SameLetter(a: Byte, b: Byte) {
    || a == b
    || (Capital(a) && b == a + 32)
    || (Capital(b) && a == b + 32)
  }

  predicate SameText(s: seq<Byte>, t: seq<Byte>) {
    |s| == |t| && forall i :: 0 <= i < |s| ==> SameLetter(s[i], t[i])
  }

  /** The number written with the most significant byte first. */
  function BigEndian(s: seq<Byte>): nat {
    if s == [] then 0 else BigEndian(s[..|s| - 1]) * 256 + s[|s| - 1]
  }

  function Concat<T>(parts: seq<seq<T>>): seq<T> {
    if parts == [] then [] else parts[0] + Concat(parts[1..])
  }

  lemma ConcatStep<T>(part: seq<T>, parts: seq<seq<T>>)
    ensures Concat([part] + parts) == part + Concat(parts)
    ensures Concat<T>([]) == []
  {
    assert ([part] + parts)[1..] == parts;
  }

  lemma {:induction false} ConcatAppend<T>(a: seq<seq<T>>, b: seq<seq<T>>)
    ensures Concat(a + b) == Concat(a) + Concat(b)
  {
    hide Concat;
    if a == [] {
      ConcatStep([], a);
      assert a + b == b;
    } else {
      assert a == [a[0]] + a[1..] && a + b == [a[0]] + (a[1..] + b);
      ConcatStep(a[0], a[1..]);
      ConcatStep(a[0], a[1..] + b);
      ConcatAppend(a[1..], b);
    }
  }

  lemma ConcatSingle<T>(a: seq<T>)
    ensures Concat([a]) == a
  {
    assert [a][1..] == [];
    assert Concat([a]) == a + Concat<T>([]);
  }

  lemma Joined(a: array<Byte>, i: nat, j: nat, k: nat)
    requires i <= j <= k <= a.Length
    ensures a[i..k] == a[i..j] + a[j..k]
  {
  }

  /** Array.Copy inside one buffer: the two ranges may overlap. */
  method MoveBlock(buffer: array<Byte>, from: nat, to: nat, count: nat)
    requires from + count <= buffer.Length && to + count <= buffer.Length
    modifies buffer
    ensures buffer[to..to + count] == old(buffer[from..from + count])
    ensures forall i :: 0 <= i < buffer.Length && !(to <= i < to + count) ==> buffer[i] == old(buffer[i])
  {
    forall i | 0 <= i < count {
      buffer[to + i] := buffer[from + i];
    }
  }

  /** Array.Copy from a caller's data into a buffer. */
  method CopyIn(data: seq<Byte>, buffer: array<Byte>, to: nat)
    requires to + |data| <= buffer.Length
    modifies buffer
    ensures buffer[to..to + |data|] == data
    ensures forall i :: 0 <= i < buffer.Length && !(to <= i < to + |data|) ==> buffer[i] == old(buffer[i])
  {
    forall i | 0 <= i < |data| {
      buffer[to + i] := data[i];
    }
  }

  /** Array.Copy between two buffers, which may be the same one. */
  method CopyBlock(source: array<Byte>, from: nat, target: array<Byte>, to: nat, count: nat)
    requires from + count <= source.Length && to + count <= target.Length
    modifies target
    ensures target[to..to + count] == old(source[from..from + count])
    ensures forall i :: 0 <= i < target.Length && !(to <= i < to + count) ==> target[i] == old(target[i])
  {
    forall i | 0 <= i < count {
      target[to + i] := source[from + i];
    }
  }
}
