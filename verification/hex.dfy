/**
 * The hexadecimal conversions of utils.c: hex2val, conv2Hex and vonc2Hex
 * between bytes and digit strings, and int2hex, which prints a 64-bit
 * value with its leading zero digits dropped.
 */
module Hex {
  import opened Arith
  import opened Bytes

  /** utils.c hex2val: digits are worth 0 to 9 and letters of either case
      10 onwards (so 'g' is worth 16); every other byte is worth 0. */
  function HexVal(c: U8): (r: nat)
    ensures r < 36
    ensures '0' as int <= c <= '9' as int ==> r == c - '0' as int
    ensures 'A' as int <= c <= 'Z' as int ==> r == 10 + c - 'A' as int
    ensures 'a' as int <= c <= 'z' as int ==> r == 10 + c - 'a' as int
    ensures (c < '0' as int || ('9' as int < c < 'A' as int) ||
             ('Z' as int < c < 'a' as int) || 'z' as int < c) ==> r == 0
  {
    if '0' as int <= c <= '9' as int then c - '0' as int
    else if 'A' as int <= c <= 'Z' as int then 10 + c - 'A' as int
    else if 'a' as int <= c <= 'z' as int then 10 + c - 'a' as int
    else 0
  }

  predicate IsLowerHex(c: U8) {
    '0' as int <= c <= '9' as int || 'a' as int <= c <= 'f' as int
  }

  predicate IsUpperHex(c: U8) {
    '0' as int <= c <= '9' as int || 'A' as int <= c <= 'F' as int
  }

  /** `(c <= 9) ? (c + '0') : (c + 'a' - 10)`: the small-letter digit of a
      nibble. */
  function LowerDigit(v: nat): (c: U8)
    requires v < 16
    ensures IsLowerHex(c) && HexVal(c) == v
  {
    if v <= 9 then v + '0' as int else v + 'a' as int - 10
  }

  /** `(h <= 9) ? (h + '0') : (h + 'A' - 10)`: the capital digit of a
      nibble. */
  function UpperDigit(v: nat): (c: U8)
    requires v < 16
    ensures IsUpperHex(c) && HexVal(c) == v
  {
    if v <= 9 then v + '0' as int else v + 'A' as int - 10
  }

  /** Different nibbles have different digits: the digit determines the
      nibble. */
  lemma DigitsDistinct(v: nat, w: nat)
    requires v < 16 && w < 16
    ensures LowerDigit(v) == LowerDigit(w) ==> v == w
    ensures UpperDigit(v) == UpperDigit(w) ==> v == w
  {
  }

  /** `(b >> 4) & 0xF` and `b & 0xF` on a byte are its two nibbles. */
  lemma Nibbles(b: U8)
    ensures And(Shr(b, 4), 0xF) == b / 16 && And(b, 0xF) == b % 16
  {
    assert Pow2(4) == 16 by {
      assert Pow2(2) == 4;
    }
    DivBelow(b, 16, 16);
    AndAllOnes(b / 16, 4);
    AndLowMask(b, 4);
  }

  /** The two small-letter digits of a byte, high nibble first. */
  function ByteDigits(b: U8): (r: seq<U8>)
    ensures |r| == 2 && IsLowerHex(r[0]) && IsLowerHex(r[1])
    ensures 16 * HexVal(r[0]) + HexVal(r[1]) == b
  {
    Nibbles(b);
    [LowerDigit(And(Shr(b, 4), 0xF)), LowerDigit(And(b, 0xF))]
  }

  /** Digits `2j` and `2j+1` of `hex` are small-letter digits that read
      back as the byte `b`. */
  predicate Pair(hex: seq<U8>, j: nat, b: U8)
    requires 2 * j + 1 < |hex|
  {
    IsLowerHex(hex[2 * j]) && IsLowerHex(hex[2 * j + 1]) &&
    16 * HexVal(hex[2 * j]) + HexVal(hex[2 * j + 1]) == b
  }

  /** The digits read back as the bytes, pair by pair. */
  ghost predicate Encodes(hex: seq<U8>, bin: seq<U8>) {
    |hex| == 2 * |bin| && forall j :: 0 <= j < |bin| ==> Pair(hex, j, bin[j])
  }

  /** Byte `j` counted from the end. */
  function Back(bin: seq<U8>, j: nat): U8
    requires j < |bin|
  {
    bin[|bin| - 1 - j]
  }

  /** The digits read back as the bytes, pair by pair, last byte first. */
  ghost predicate EncodesBackward(hex: seq<U8>, bin: seq<U8>) {
    |hex| == 2 * |bin| && forall j :: 0 <= j < |bin| ==> Pair(hex, j, Back(bin, j))
  }

  /** The digits of a byte string, byte by byte. */
  function HexOf(bin: seq<U8>): (h: seq<U8>)
    ensures |h| == 2 * |bin|
  {
    if |bin| == 0 then [] else HexOf(bin[..|bin| - 1]) + ByteDigits(bin[|bin| - 1])
  }

  /** The digits of one more byte, at the end of the bytes. */
  lemma AppendByte(hex: seq<U8>, bin: seq<U8>, b: U8)
    requires Encodes(hex, bin)
    ensures Encodes(hex + ByteDigits(b), bin + [b])
  {
    var h, n := hex + ByteDigits(b), bin + [b];
    forall j | 0 <= j < |n|
      ensures Pair(h, j, n[j])
    {
      if j < |bin| {
        assert Pair(hex, j, bin[j]);
        assert h[2 * j] == hex[2 * j] && h[2 * j + 1] == hex[2 * j + 1];
        assert n[j] == bin[j];
      } else {
        assert h[2 * j] == ByteDigits(b)[0] && h[2 * j + 1] == ByteDigits(b)[1];
        assert n[j] == b;
      }
    }
  }

  /** The digits of a byte string encode it, pair by pair. */
  lemma {:induction false} HexOfEncodes(bin: seq<U8>)
    ensures Encodes(HexOf(bin), bin)
  {
    if |bin| > 0 {
      var init, b := bin[..|bin| - 1], bin[|bin| - 1];
      HexOfEncodes(init);
      AppendByte(HexOf(init), init, b);
      assert init + [b] == bin;
    }
  }

  /** Encoding the reversed bytes in order is encoding the bytes last
      first. */
  lemma EncodesReversed(hex: seq<U8>, bin: seq<U8>)
    requires Encodes(hex, Reverse(bin))
    ensures EncodesBackward(hex, bin)
  {
    var r := Reverse(bin);
    forall j | 0 <= j < |bin|
      ensures Pair(hex, j, Back(bin, j))
    {
      assert Pair(hex, j, r[j]);
      assert r[j] == Back(bin, j);
    }
  }

  /**
   * utils.c conv2Hex: the `n` bytes as `2n` small-letter digits, high
   * nibble first (the terminating NUL at `2n` is left implicit).  `n` is a
   * uint16_t.
   */
  method Conv2Hex(bin: seq<U8>) returns (hex: seq<U8>)
    requires |bin| < B16
    ensures Encodes(hex, bin)
  {
    hex := [];
    var i := 0;
    while i < |bin|
      invariant 0 <= i <= |bin|
      invariant hex == HexOf(bin[..i])
    {
      assert bin[..i + 1][..i] == bin[..i];
      hex := hex + ByteDigits(bin[i]);
      i := i + 1;
    }
    assert bin[..i] == bin;
    HexOfEncodes(bin);
  }

  /** utils.c vonc2Hex: the same, last byte first. */
  method Vonc2Hex(bin: seq<U8>) returns (hex: seq<U8>)
    requires |bin| < B16
    ensures EncodesBackward(hex, bin)
  {
    hex := [];
    var i := |bin| - 1;
    while i >= 0
      invariant -1 <= i < |bin|
      invariant hex == HexOf(Reverse(bin[i + 1..]))
    {
      var r := Reverse(bin[i..]);
      assert r[..|r| - 1] == Reverse(bin[i + 1..]) && r[|r| - 1] == bin[i];
      hex := hex + ByteDigits(bin[i]);
      i := i - 1;
    }
    assert bin[0..] == bin;
    HexOfEncodes(Reverse(bin));
    EncodesReversed(hex, bin);
  }

  /** The value of a digit string read most significant digit first. */
  function DigitsValue(h: seq<U8>): nat {
    if |h| == 0 then 0 else 16 * DigitsValue(h[..|h| - 1]) + HexVal(h[|h| - 1])
  }

  /** A digit string without leading zeros is the one `int2hex` prints. */
  ghost predicate Canonical(h: seq<U8>) {
    (forall j :: 0 <= j < |h| ==> IsLowerHex(h[j])) && (|h| > 0 ==> h[0] != '0' as int)
  }

  const LongMin: int := -0x8000_0000_0000_0000
  const LongMax: int := 0x7FFF_FFFF_FFFF_FFFF

  /** The 64-bit pattern of a signed long long: two's complement. */
  function Unsigned64(i: int): (u: U64)
    requires LongMin <= i <= LongMax
    ensures u == i % B64
  {
    if i < 0 then DivModUnique(i, B64, -1, i + B64); i + B64
    else DivModUnique(i, B64, 0, i); i
  }

  /** The bytes of a 64-bit word, most significant first (MapInt64 on a
      little-endian machine). */
  function BigEndian(u: U64): (b: seq<U8>)
    ensures |b| == 8
  {
    Reverse(LE(u, 8))
  }

  /** Appending the two nibbles of the next byte, skipping a zero digit as
      long as nothing has been printed yet. */
  function PushDigit(h: seq<U8>, v: nat): (r: seq<U8>)
    requires v < 16
  {
    if v != 0 || |h| > 0 then h + [LowerDigit(v)] else h
  }

  /**
   * utils.c int2hex: "0x" followed by the 64-bit pattern of `i` in
   * small-letter digits, leading zero digits dropped, so 0 prints as "0x"
   * alone; the result is the string and its length.  The parameters `m`
   * and `width` of the source are unused by it and left out.
   */
  method Int2Hex(i: int) returns (hex: seq<U8>, k: nat)
    requires LongMin <= i <= LongMax
    ensures k == |hex| && 2 <= k <= 18
    ensures hex[..2] == ['0' as int, 'x' as int]
    ensures Canonical(hex[2..])
    ensures DigitsValue(hex[2..]) == i % B64
    ensures k == 2 <==> i == 0
  {
    var u := Unsigned64(i);
    var b := BigEndian(u);
    var digits: seq<U8> := [];
    var j := 0;
    while j < 8
      invariant 0 <= j <= 8 && |digits| <= 2 * j
      invariant Canonical(digits)
      invariant DigitsValue(digits) == FromBE(b[..j])
    {
      Nibbles(b[j]);
      var hi, lo := And(Shr(b[j], 4), 0xF), And(b[j], 0xF);
      var d1 := PushDigit(digits, hi);
      PushValue(digits, hi);
      var d2 := PushDigit(d1, lo);
      PushValue(d1, lo);
      FromBEStep(b[..j + 1]);
      assert b[..j + 1][..j] == b[..j];
      digits := d2;
      j := j + 1;
    }
    assert b[..8] == b;
    AllDigits(u, digits);
    hex := ['0' as int, 'x' as int] + digits;
    k := |hex|;
    assert hex[2..] == digits;
  }

  /** The digits of all eight bytes are the digits of the word, and there
      are none exactly for zero. */
  lemma AllDigits(u: U64, digits: seq<U8>)
    requires Canonical(digits) && DigitsValue(digits) == FromBE(BigEndian(u))
    ensures DigitsValue(digits) == u
    ensures |digits| == 0 <==> u == 0
  {
    BigEndianValue(u);
    if |digits| > 0 {
      LeadingDigitCounts(digits);
    }
  }

  /** A digit string whose first digit is not zero has a value above zero. */
  lemma {:induction false} LeadingDigitCounts(h: seq<U8>)
    requires |h| > 0 && IsLowerHex(h[0]) && h[0] != '0' as int
    ensures DigitsValue(h) > 0
  {
    if |h| > 1 {
      assert h[..|h| - 1][0] == h[0];
      LeadingDigitCounts(h[..|h| - 1]);
    }
  }

  /** The value of bytes read most significant first. */
  function FromBE(b: seq<U8>): nat {
    if |b| == 0 then 0 else 256 * FromBE(b[..|b| - 1]) + b[|b| - 1]
  }

  lemma FromBEStep(b: seq<U8>)
    requires |b| > 0
    ensures FromBE(b) == 256 * FromBE(b[..|b| - 1]) + b[|b| - 1]
  {
  }

  /** Pushing a digit multiplies the value by 16 and adds the nibble (a
      dropped leading zero adds nothing to a zero value). */
  lemma PushValue(h: seq<U8>, v: nat)
    requires v < 16 && Canonical(h)
    requires |h| == 0 ==> DigitsValue(h) == 0
    ensures Canonical(PushDigit(h, v))
    ensures DigitsValue(PushDigit(h, v)) == 16 * DigitsValue(h) + v
    ensures |PushDigit(h, v)| <= |h| + 1
  {
    var r := PushDigit(h, v);
    if v != 0 || |h| > 0 {
      assert r[..|r| - 1] == h;
    }
  }

  /** Big-endian bytes of a word read back as the word. */
  lemma BigEndianValue(u: U64)
    ensures FromBE(BigEndian(u)) == u
  {
    Pow2Is64();
    LERoundTrip(u, 8);
    BEIsReversedLE(LE(u, 8));
  }

  lemma {:induction false} BEIsReversedLE(b: seq<U8>)
    ensures FromBE(Reverse(b)) == FromLE(b)
  {
    if |b| > 0 {
      var r := Reverse(b);
      assert r[..|r| - 1] == Reverse(b[1..]);
      BEIsReversedLE(b[1..]);
    }
  }
}
