/**
 * The client side of the WebSocket wire format: masking and frame headers (Nowin/OwinHandler.cs:602-667),
 * against sections 5.2 and 5.3 of RFC 6455.
 */
module WebSocketHeader {
  import opened Bytes

  // ---------------------------------------------------------------------------------------
  // Masking
  // ---------------------------------------------------------------------------------------

  /** Exclusive or of two numbers, bit by bit. */
  function XorBits(a: nat, b: nat): nat
    decreases a + b
  {
    if a == 0 && b == 0 then 0 else 2 * XorBits(a / 2, b / 2) + (a % 2 + b % 2) % 2
  }

  lemma {:induction false} XorBound(a: nat, b: nat, bound: nat, bits: nat)
    requires a < bound && b < bound && bound == PowerOfTwo(bits)
    ensures XorBits(a, b) < bound
    decreases bits
  {
    if bits > 0 {
      var half := PowerOfTwo(bits - 1);
      assert a / 2 < half && b / 2 < half;
      XorBound(a / 2, b / 2, half, bits - 1);
    }
  }

  function PowerOfTwo(bits: nat): (p: nat)
    ensures p > 0
  {
    if bits == 0 then 1 else 2 * PowerOfTwo(bits - 1)
  }

  lemma ByteXorBound(a: Byte, b: Byte)
    ensures XorBits(a, b) < 256
  {
    assert PowerOfTwo(8) == 256;
    XorBound(a, b, 256, 8);
  }

  function Xor(a: Byte, b: Byte): Byte {
    ByteXorBound(a, b);
    XorBits(a, b)
  }

  lemma {:induction false} XorBitsTwice(a: nat, b: nat)
    ensures XorBits(XorBits(a, b), b) == a
    decreases a + b
  {
    if a == 0 && b == 0 {
    } else {
      hide XorBits;
      var a1, a0, b1, b0 := a / 2, a % 2, b / 2, b % 2;
      XorBitsTwice(a1, b1);
      XorStep(a1, a0, b1, b0);
      XorStep(XorBits(a1, b1), (a0 + b0) % 2, b1, b0);
      BitTwice(a0, b0);
      assert a == 2 * a1 + a0 && b == 2 * b1 + b0;
    }
  }

  lemma BitTwice(a: nat, b: nat)
    requires a <= 1 && b <= 1
    ensures ((a + b) % 2 + b) % 2 == a
  {
  }

  lemma XorStep(a1: nat, a0: nat, b1: nat, b0: nat)
    requires a0 <= 1 && b0 <= 1
    ensures XorBits(2 * a1 + a0, 2 * b1 + b0) == 2 * XorBits(a1, b1) + (a0 + b0) % 2
  {
    assert (2 * a1 + a0) / 2 == a1 && (2 * a1 + a0) % 2 == a0;
    assert (2 * b1 + b0) / 2 == b1 && (2 * b1 + b0) % 2 == b0;
  }

  /** Bit `k` of a number, bit 0 being its parity. */
  function Bit(n: nat, k: nat): (b: nat)
    ensures b <= 1
  {
    if k == 0 then n % 2 else Bit(n / 2, k - 1)
  }

  lemma {:induction false} XorBitsBitwise(a: nat, b: nat, k: nat)
    ensures Bit(XorBits(a, b), k) == (Bit(a, k) + Bit(b, k)) % 2
    decreases k
  {
    hide XorBits;
    XorStep(a / 2, a % 2, b / 2, b % 2);
    HalfAndParity(XorBits(a / 2, b / 2), (a % 2 + b % 2) % 2);
    if k > 0 {
      XorBitsBitwise(a / 2, b / 2, k - 1);
    }
  }

  lemma HalfAndParity(half: nat, parity: nat)
    requires parity <= 1
    ensures (2 * half + parity) / 2 == half && (2 * half + parity) % 2 == parity
  {
  }

  /** Every bit is the sum modulo 2 of the two bits in its place. */
  lemma XorIsBitwise(a: Byte, b: Byte, k: nat)
    ensures Bit(Xor(a, b), k) == (Bit(a, k) + Bit(b, k)) % 2
  {
    hide XorBits, Bit;
    XorBitsBitwise(a, b, k);
  }

  /** The number with these bits, the least significant first. */
  function FromBits(bits: seq<nat>): nat {
    if bits == [] then 0 else bits[0] + 2 * FromBits(bits[1..])
  }

  lemma {:induction false} BitsOf(n: nat, count: nat, bits: seq<nat>)
    requires n < PowerOfTwo(count) && |bits| == count
    requires forall k :: 0 <= k < count ==> bits[k] == Bit(n, k)
    ensures FromBits(bits) == n
    decreases count
  {
    if count > 0 {
      assert bits[0] == Bit(n, 0) == n % 2;
      forall k | 0 <= k < count - 1
        ensures bits[1..][k] == Bit(n / 2, k)
      {
        assert bits[k + 1] == Bit(n, k + 1);
      }
      BitsOf(n / 2, count - 1, bits[1..]);
    }
  }

  /** Section 5.3: octet `b` of the masking key over octet `a`, bit by bit. */
  function MaskedOctet(a: Byte, b: Byte): Byte {
    var bits := seq(8, k requires 0 <= k < 8 => (Bit(a, k) + Bit(b, k)) % 2);
    FromBitsBound(bits);
    FromBits(bits)
  }

  lemma {:induction false} FromBitsBound(bits: seq<nat>)
    requires forall k :: 0 <= k < |bits| ==> bits[k] <= 1
    ensures FromBits(bits) < PowerOfTwo(|bits|)
    ensures PowerOfTwo(8) == 256
  {
    if bits != [] {
      FromBitsBound(bits[1..]);
    }
  }

  lemma XorIsStandard(a: Byte, b: Byte)
    ensures Xor(a, b) == MaskedOctet(a, b)
  {
    hide XorBits, Bit, Xor;
    var bits := seq(8, k requires 0 <= k < 8 => (Bit(a, k) + Bit(b, k)) % 2);
    forall k | 0 <= k < 8
      ensures bits[k] == Bit(Xor(a, b), k)
    {
      XorIsBitwise(a, b, k);
    }
    assert PowerOfTwo(8) == 256;
    BitsOf(Xor(a, b), 8, bits);
  }

  type Key = key: seq<Byte> | |key| == 4 witness [0, 0, 0, 0]

  /** The payload `s`, its first byte under byte `index` of the key. */
  function Masked(key: Key, index: nat, s: seq<Byte>): (t: seq<Byte>)
    ensures |t| == |s|
    ensures forall i :: 0 <= i < |s| ==> t[i] == Xor(s[i], key[(index + i) % 4])
  {
    seq(|s|, i requires 0 <= i < |s| => Xor(s[i], key[(index + i) % 4]))
  }

  /** What a client makes of its payload by section 5.3: octet `i` under octet `i` modulo 4 of its key. */
  function ClientMasked(key: Key, s: seq<Byte>): (t: seq<Byte>)
    ensures |t| == |s|
  {
    seq(|s|, i requires 0 <= i < |s| => MaskedOctet(s[i], key[i % 4]))
  }

  /** Payloads of clients and what Unmask undoes are the same. */
  lemma MaskedIsStandard(key: Key, s: seq<Byte>)
    ensures Masked(key, 0, s) == ClientMasked(key, s)
  {
    hide Xor, MaskedOctet;
    forall i | 0 <= i < |s|
      ensures Masked(key, 0, s)[i] == ClientMasked(key, s)[i]
    {
      XorIsStandard(s[i], key[i % 4]);
    }
  }

  /** Masking is its own inverse. */
  lemma MaskedTwice(key: Key, index: nat, s: seq<Byte>)
    ensures Masked(key, index, Masked(key, index, s)) == s
  {
    hide XorBits;
    forall i | 0 <= i < |s|
      ensures Masked(key, index, Masked(key, index, s))[i] == s[i]
    {
      XorBitsTwice(s[i], key[(index + i) % 4]);
    }
  }

  /** Unmasking piece by piece with a rolling index is unmasking the whole payload at once. */
  lemma MaskedRolls(key: Key, index: nat, a: seq<Byte>, b: seq<Byte>)
    ensures Masked(key, index, a + b) == Masked(key, index, a) + Masked(key, (index + |a|) % 4, b)
  {
    hide Xor, Masked;
    var whole, left, rest := Masked(key, index, a + b), Masked(key, index, a), Masked(key, (index + |a|) % 4, b);
    forall i | 0 <= i < |b|
      ensures whole[|a| + i] == rest[i]
    {
      RollingIndex(index + |a|, i);
      assert (a + b)[|a| + i] == b[i];
    }
    assert whole[..|a|] == left && whole[|a|..] == rest;
    assert whole == whole[..|a|] + whole[|a|..];
  }

  lemma MaskedOneMore(key: Key, index: nat, s: seq<Byte>, i: nat)
    requires i < |s|
    ensures Masked(key, index, s[..i + 1]) == Masked(key, index, s[..i]) + [Xor(s[i], key[(index + i) % 4])]
  {
    hide Xor;
  }

  lemma RollingIndex(x: nat, k: nat)
    ensures (x + k) % 4 == (x % 4 + k) % 4
  {
  }

  // ---------------------------------------------------------------------------------------
  // Headers
  // ---------------------------------------------------------------------------------------

  datatype Head = Head(size: nat, last: bool, opcode: Byte, length: nat, key: Key) | Incomplete | Bad

  predicate ValidOpcode(i: Byte) {
    i <= 2 || 8 <= i <= 10
  }

  /** The shift of an int: counts are taken modulo 32, the result wraps to 32 bits. */
  function ShiftLeft(b: Byte, count: nat): int {
    WrapInt(b * PowerOfTwo(count % 32))
  }

  function WrapInt(x: int): (w: int)
    ensures -TWO31 <= w < TWO31
  {
    (x + TWO31) % TWO32 - TWO31
  }

  /** `(ulong)` of an int extends its sign. */
  function ToULong(x: int): int
    requires -TWO31 <= x < TWO31
  {
    if x < 0 then x + TWO64 else x
  }

  /** The 64-bit length, as the sum of eight shifted ints. */
  function Length64(s: seq<Byte>): (n: nat)
    requires |s| == 8
  {
    ToULong(WrapInt(ShiftLeft(s[0], 56) + ShiftLeft(s[1], 48) + ShiftLeft(s[2], 40) + ShiftLeft(s[3], 32)
                    + ShiftLeft(s[4], 24) + ShiftLeft(s[5], 16) + ShiftLeft(s[6], 8) + s[7]))
  }

  /** ParseHeader on the bytes that are there, at least one. */
  function ParseHeader(s: seq<Byte>): (h: Head)
    requires s != []
    ensures h.Head? ==> 6 <= h.size <= |s|
  {
    var b0 := s[0];
    if b0 / 16 % 8 != 0 || !ValidOpcode(b0 % 16) then Bad
    else if |s| < 2 then Incomplete
    else if s[1] < 0x80 then Bad
    else
      var b := s[1] % 0x80;
      var last, opcode := b0 >= 0x80, b0 % 16;
      if b == 126 then
        if |s| < 8 then Incomplete else Head(8, last, opcode, s[2] as int * 256 + s[3], s[4..8])
      else if b == 127 then
        if |s| < 14 then Incomplete else Head(14, last, opcode, Length64(s[2..10]), s[10..14])
      else if |s| < 6 then Incomplete else Head(6, last, opcode, b, s[2..6])
  }

  /**
   * Section 5.2: what is refused is a reserved bit, a reserved opcode or, once the second byte is there, a
   * frame that is not masked, and nothing else; FIN is bit 7 and the opcode the low four bits.
   */
  lemma WhatIsRefused(s: seq<Byte>)
    requires s != []
    ensures ParseHeader(s).Bad? <==>
            || Bit(s[0], 6) == 1 || Bit(s[0], 5) == 1 || Bit(s[0], 4) == 1
            || s[0] % 16 !in {0, 1, 2, 8, 9, 10}
            || (|s| >= 2 && Bit(s[1], 7) == 0)
    ensures ParseHeader(s).Head? ==>
            var h := ParseHeader(s); (h.last <==> Bit(s[0], 7) == 1) && h.opcode == s[0] % 16
  {
    hide Bit;
    HighBits(s[0]);
    if |s| >= 2 {
      HighBits(s[1]);
    }
  }

  lemma HighBits(b: Byte)
    ensures b / 16 % 8 != 0 <==> Bit(b, 6) == 1 || Bit(b, 5) == 1 || Bit(b, 4) == 1
    ensures b >= 128 <==> Bit(b, 7) == 1
  {
    hide Bit;
    FourBitsUp(b, 0);
    FourBitsUp(b, 1);
    FourBitsUp(b, 2);
    FourBitsUp(b, 3);
    FourBits(b / 16);
  }

  lemma FourBitsUp(n: nat, k: nat)
    ensures Bit(n, k + 4) == Bit(n / 16, k)
  {
    assert Bit(n, k + 4) == Bit(n / 2 / 2, k + 2) == Bit(n / 2 / 2 / 2 / 2, k);
  }

  lemma FourBits(n: nat)
    requires n < 16
    ensures n % 8 != 0 <==> Bit(n, 2) == 1 || Bit(n, 1) == 1 || Bit(n, 0) == 1
    ensures n >= 8 <==> Bit(n, 3) == 1
  {
    hide Bit;
    LowBits(n);
    assert n == n % 2 + 2 * (n / 2 % 2) + 4 * (n / 2 / 2 % 2) + 8 * (n / 2 / 2 / 2);
  }

  lemma LowBits(n: nat)
    ensures Bit(n, 0) == n % 2 && Bit(n, 1) == n / 2 % 2 && Bit(n, 2) == n / 2 / 2 % 2
    ensures Bit(n, 3) == n / 2 / 2 / 2 % 2
  {
    assert Bit(n, 2) == Bit(n / 2, 1);
    assert Bit(n, 3) == Bit(n / 2, 2) == Bit(n / 2 / 2, 1);
  }

  /** `n` in `count` bytes, most significant first. */
  function NetworkOrder(n: nat, count: nat): (s: seq<Byte>)
    ensures |s| == count
  {
    if count == 0 then [] else NetworkOrder(n / 256, count - 1) + [n % 256]
  }

  /** The header a client sends, by section 5.2, for a payload of `n` bytes. */
  function ClientHead(fin: bool, opcode: Byte, n: nat, key: Key): seq<Byte>
    requires ValidOpcode(opcode)
  {
    var b0: Byte := (if fin then 0x80 else 0) + opcode;
    if n < 126 then [b0, 0x80 + n] + key
    else if n <= 65535 then [b0, 0x80 + 126] + NetworkOrder(n, 2) + key
    else [b0, 0x80 + 127] + NetworkOrder(n, 8) + key
  }

  function Power256(count: nat): nat {
    if count == 0 then 1 else 256 * Power256(count - 1)
  }

  lemma {:induction false} NetworkOrderValue(n: nat, count: nat)
    requires n < Power256(count)
    ensures BigEndian(NetworkOrder(n, count)) == n
  {
    if count > 0 {
      NetworkOrderValue(n / 256, count - 1);
      assert NetworkOrder(n, count)[..count - 1] == NetworkOrder(n / 256, count - 1);
    }
  }

  lemma Digit(s: seq<Byte>, k: nat)
    requires 0 < k <= |s|
    ensures BigEndian(s[..k]) == BigEndian(s[..k - 1]) * 256 + s[k - 1]
  {
    assert s[..k][..k - 1] == s[..k - 1];
  }

  lemma FourDigits(s: seq<Byte>, k: nat)
    requires 4 <= k <= |s|
    ensures BigEndian(s[..k]) == BigEndian(s[..k - 4]) * TWO32 + Number4(s[k - 4], s[k - 3], s[k - 2], s[k - 1])
  {
    hide BigEndian;
    Digit(s, k);
    Digit(s, k - 1);
    Digit(s, k - 2);
    Digit(s, k - 3);
  }

  // ---------------------------------------------------------------------------------------
  // The 64-bit length
  // ---------------------------------------------------------------------------------------

  lemma WrapAgain(x: int, y: int)
    ensures WrapInt(WrapInt(x) + y) == WrapInt(x + y)
    ensures WrapInt(y + WrapInt(x)) == WrapInt(x + y)
  {
    var k := (x + TWO31) / TWO32;
    assert WrapInt(x) == x - k * TWO32;
    assert (x + y + TWO31) % TWO32 == (x - k * TWO32 + y + TWO31) % TWO32 by {
      ModShift(x - k * TWO32 + y + TWO31, k);
    }
  }

  lemma ModShift(a: int, k: int)
    ensures (a + k * TWO32) % TWO32 == a % TWO32
  {
    var q := a / TWO32;
    assert a + k * TWO32 == (q + k) * TWO32 + a % TWO32;
  }

  function Number4(a: Byte, b: Byte, c: Byte, d: Byte): (n: nat)
    ensures n < TWO32
  {
    a * 0x100_0000 + b * 0x1_0000 + c * 0x100 + d
  }

  lemma Powers()
    ensures PowerOfTwo(0) == 1 && PowerOfTwo(8) == 0x100 && PowerOfTwo(16) == 0x1_0000 && PowerOfTwo(24) == 0x100_0000
  {
    assert PowerOfTwo(12) == 16 * PowerOfTwo(8);
    assert PowerOfTwo(20) == 16 * PowerOfTwo(16);
    assert PowerOfTwo(16) == 16 * PowerOfTwo(12);
    assert PowerOfTwo(24) == 16 * PowerOfTwo(20);
  }

  lemma Shifts(b: Byte)
    ensures ShiftLeft(b, 56) == ShiftLeft(b, 24) == WrapInt(b as int * 0x100_0000)
    ensures ShiftLeft(b, 48) == ShiftLeft(b, 16) == WrapInt(b as int * 0x1_0000)
    ensures ShiftLeft(b, 40) == ShiftLeft(b, 8) == WrapInt(b as int * 0x100)
    ensures ShiftLeft(b, 32) == WrapInt(b as int)
  {
    hide WrapInt;
    Powers();
  }

  /** Both halves are added up in 32 bits. */
  lemma Length64IsSum(s: seq<Byte>)
    requires |s| == 8
    ensures Length64(s) == ToULong(WrapInt(Number4(s[0], s[1], s[2], s[3]) + Number4(s[4], s[5], s[6], s[7])))
  {
    hide WrapInt, ToULong, Number4, ShiftLeft;
    Shifts(s[0]);
    Shifts(s[1]);
    Shifts(s[2]);
    Shifts(s[3]);
    Shifts(s[4]);
    Shifts(s[5]);
    Shifts(s[6]);
    var a, b, c, d := s[0] as int * 0x100_0000, s[1] as int * 0x1_0000, s[2] as int * 0x100, s[3] as int;
    var e, f, g, h := s[4] as int * 0x100_0000, s[5] as int * 0x1_0000, s[6] as int * 0x100, s[7] as int;
    var a', b', c', d' := WrapInt(a), WrapInt(b), WrapInt(c), WrapInt(d);
    var e', f', g' := WrapInt(e), WrapInt(f), WrapInt(g);
    assert WrapInt(a' + b' + c' + d' + e' + f' + g' + h) == WrapInt(a + b + c + d + e + f + g + h) by {
      WrapAgain(a, b' + c' + d' + e' + f' + g' + h);
      WrapAgain(b, a + c' + d' + e' + f' + g' + h);
      WrapAgain(c, a + b + d' + e' + f' + g' + h);
      WrapAgain(d, a + b + c + e' + f' + g' + h);
      WrapAgain(e, a + b + c + d + f' + g' + h);
      WrapAgain(f, a + b + c + d + e + g' + h);
      WrapAgain(g, a + b + c + d + e + f + h);
    }
    assert Length64(s) == ToULong(WrapInt(a' + b' + c' + d' + e' + f' + g' + h));
    assert Number4(s[0], s[1], s[2], s[3]) == a + b + c + d && Number4(s[4], s[5], s[6], s[7]) == e + f + g + h by {
      Number4Parts(s[0], s[1], s[2], s[3]);
      Number4Parts(s[4], s[5], s[6], s[7]);
    }
  }

  lemma Number4Parts(a: Byte, b: Byte, c: Byte, d: Byte)
    ensures Number4(a, b, c, d) == a * 0x100_0000 + b * 0x1_0000 + c * 0x100 + d
  {
  }

  /** A 64-bit length is read correctly exactly when it is below 2^31. */
  lemma Length64IsExactBelow2To31(n: nat)
    requires n < TWO64
    ensures Length64(NetworkOrder(n, 8)) == n <==> n < TWO31
  {
    hide Length64, NetworkOrder, Number4, WrapInt, ToULong;
    var s := NetworkOrder(n, 8);
    assert Power256(4) == TWO32 && Power256(8) == TWO64;
    NetworkOrderValue(n, 8);
    FourDigits(s, 8);
    FourDigits(s, 4);
    assert s[..8] == s && BigEndian(s[..0]) == 0;
    Length64IsSum(s);
    SumIsExact(n, Number4(s[0], s[1], s[2], s[3]), Number4(s[4], s[5], s[6], s[7]));
  }

  lemma SumIsExact(n: nat, high: nat, low: nat)
    requires n == high * TWO32 + low && low < TWO32 && high < TWO32
    ensures ToULong(WrapInt(high + low)) == n <==> n < TWO31
  {
    if high == 0 {
    } else if high + low < TWO31 {
    } else if high + low < TWO32 + TWO31 {
      assert WrapInt(high + low) == high + low - TWO32;
    } else {
      assert WrapInt(high + low) == high + low - 2 * TWO32;
    }
  }

  // ---------------------------------------------------------------------------------------
  // Round trip
  // ---------------------------------------------------------------------------------------

  /** Every header a client may send is read back, with the length it announces. */
  lemma HeaderRoundTrip(fin: bool, opcode: Byte, n: nat, key: Key, rest: seq<Byte>)
    requires ValidOpcode(opcode) && n < TWO63
    ensures var size := if n < 126 then 6 else if n <= 65535 then 8 else 14;
            var head := ClientHead(fin, opcode, n, key);
            && |head| == size
            && ParseHeader(head + rest).Head?
            && ParseHeader(head + rest).(length := n) == Head(size, fin, opcode, n, key)
            && (ParseHeader(head + rest).length == n <==> n <= 65535 || n < TWO31)
  {
    hide NetworkOrder, Length64;
    var head := ClientHead(fin, opcode, n, key);
    var s := head + rest;
    assert s[0] == (if fin then 0x80 else 0) + opcode && s[0] / 16 % 8 == 0 && s[0] % 16 == opcode;
    if n < 126 {
      assert s[1] == 0x80 + n && s[2..6] == key;
    } else if n <= 65535 {
      assert s[1] == 0x80 + 126 && s[2..4] == NetworkOrder(n, 2) && s[4..8] == key;
      assert Power256(2) == 65536;
      NetworkOrderValue(n, 2);
      Digit(s[2..4], 2);
      Digit(s[2..4], 1);
      assert s[2..4][..2] == s[2..4];
    } else {
      assert s[1] == 0x80 + 127 && s[2..10] == NetworkOrder(n, 8) && s[10..14] == key;
      Length64IsExactBelow2To31(n);
    }
  }

  /** Only the whole header counts: before its last byte the parser waits, behind it nothing matters. */
  lemma HeaderPrefix(s: seq<Byte>, k: nat)
    requires s != [] && 0 < k <= |s|
    ensures ParseHeader(s).Head? ==>
              ParseHeader(s[..k]) == if k < ParseHeader(s).size then Incomplete else ParseHeader(s)
    ensures ParseHeader(s).Incomplete? ==> ParseHeader(s[..k]).Incomplete?
    ensures ParseHeader(s).Bad? && k >= 2 ==> ParseHeader(s[..k]).Bad?
  {
    hide Length64;
    var t := s[..k];
    if k >= 14 {
      assert t[2..10] == s[2..10] && t[10..14] == s[10..14];
    }
    if k >= 8 {
      assert t[4..8] == s[4..8];
    }
    if k >= 6 {
      assert t[2..6] == s[2..6];
    }
  }
}
