/**
 * The UTF-8 scalar codec of utils.c (section 3 of RFC 3629, without its
 * exclusion of the surrogate range): utf32to8 writes a code point as one
 * to four bytes, substituting U+FFFD above U+10FFFF, and utf8to32 reads
 * one sequence back through the tables trailingBytesForUTF8 and
 * offsetsFromUTF8, without checking the continuation bytes.  Arithmetic is
 * on uint32, so it wraps modulo 2^32.
 */
module Utf8 {
  import opened Arith

  const Replacement: U32 := 0xFFFD

  /** utils.c trailingBytesForUTF8: how many bytes follow a lead byte.  The
      table is 0 below 0xC0, then 1 up to 0xDF, 2 up to 0xEF, 3 up to 0xF7,
      4 up to 0xFB and 5 above. */
  function Trailing(b: U8): (n: nat)
    ensures n <= 5
  {
    if b < 0xC0 then 0
    else if b < 0xE0 then 1
    else if b < 0xF0 then 2
    else if b < 0xF8 then 3
    else if b < 0xFC then 4
    else 5
  }

  /** utils.c offsetsFromUTF8: the sum of the marker bits a sequence with
      `tl` trailing bytes adds to its code point. */
  function Offset(tl: nat): U32
    requires tl <= 5
  {
    [0x0000_0000, 0x0000_3080, 0x000E_2080, 0x03C8_2080, 0xFA08_2080, 0x8208_2080][tl]
  }

  /** utils.c firstByteMark: the marker of the lead byte of an `l`-byte
      sequence. */
  function FirstByteMark(l: nat): U8
    requires l <= 6
  {
    [0x00, 0x00, 0xC0, 0xE0, 0xF0, 0xF8, 0xFC][l]
  }

  /** The number of bytes utf8to32 reads at a lead byte. */
  function Needed(b: U8): nat {
    if b < 0x80 || Trailing(b) > 3 then 1 else Trailing(b) + 1
  }

  /** `u32 <<= 6; u32 += c` in uint32 arithmetic. */
  function Step(u: U32, c: U8): U32 {
    (Shl(u, 6, 32) + c) % B32
  }

  /** `u32 += *u++; u32 <<= 6;` over the bytes, the last one without the
      shift: the shift of the starting zero changes nothing. */
  function Accumulate(b: seq<U8>): U32
    decreases |b|
  {
    if |b| == 0 then 0 else Step(Accumulate(b[..|b| - 1]), b[|b| - 1])
  }

  /** The code point utf8to32 reads and the number of bytes it consumes. */
  datatype Read = Read(cp: U32, used: nat)

  /**
   * utils.c utf8to32: a byte below 0x80 is its own code point; a lead byte
   * announcing more than three trailing bytes gives U+FFFD and consumes
   * one byte; otherwise the lead byte and its trailing bytes are
   * accumulated and the offset subtracted.  A lone continuation byte (no
   * trailing bytes) reads as itself.  The source reads the trailing bytes
   * without looking, so they must be there.
   */
  function Utf8To32(s: seq<U8>): (r: Read)
    requires |s| >= 1 && |s| >= Needed(s[0])
    ensures r.used == Needed(s[0])
    ensures s[0] < 0x80 ==> r.cp == s[0]
    ensures s[0] >= 0x80 && Trailing(s[0]) > 3 ==> r.cp == Replacement
  {
    if s[0] < 0x80 then Read(s[0], 1)
    else
      var tl := Trailing(s[0]);
      if tl > 3 then Read(Replacement, 1)
      else Read((Accumulate(s[..tl + 1]) - Offset(tl)) % B32, tl + 1)
  }

  /** `(uchar)((u32 | byteMark) & byteMask)`: a continuation byte, 10 and
      the low six bits of `x`. */
  function Cont(x: nat): (c: U8)
    ensures c == 0x80 + x % 64
  {
    OrAndMark(x, 6);
    Pow2Small();
    And(Or(x, 0x80), 0xBF)
  }

  /** The bytes of a sequence with `n` continuation bytes, written from the
      last byte backwards as the source's switch does, shifting the value
      right by 6 after each continuation byte.  The lead byte is
      `(uchar)(u32 | firstByteMark[l])`. */
  function Bytes(x: nat, n: nat, mark: U8): (b: seq<U8>)
    ensures |b| == n + 1
  {
    if n == 0 then [Or(x, mark) % 256]
    else Bytes(Shr(x, 6), n - 1, mark) + [Cont(x)]
  }

  /** The length utf32to8 chooses: by range, U+FFFD's three bytes above
      U+10FFFF. */
  function Length(cp: U32): (l: nat)
    ensures 1 <= l <= 4
  {
    if cp < 0x80 then 1
    else if cp < 0x800 then 2
    else if cp < 0x1_0000 then 3
    else if cp < 0x11_0000 then 4
    else 3
  }

  /**
   * utils.c utf32to8: the bytes of the sequence in memory order (the rest
   * of the returned word is zero).
   */
  function Utf32To8(cp: U32): (b: seq<U8>)
    ensures |b| == Length(cp)
    ensures cp >= 0x11_0000 ==> b == Utf32To8(Replacement)
  {
    var v := if cp < 0x11_0000 then cp else Replacement;
    var l := Length(cp);
    Bytes(v, l - 1, FirstByteMark(l))
  }

  /** `|` with a non-zero word is not zero. */
  lemma {:induction false} OrPositive(a: nat, b: nat)
    requires b > 0
    ensures Or(a, b) > 0
    decreases a
  {
    if a != 0 && a % 2 == 0 && b % 2 == 0 {
      OrPositive(a / 2, b / 2);
    }
  }

  /** `|` with an even word: the low bit is `x`'s, the rest `|` one bit
      lower. */
  lemma OrEven(x: nat, p: nat)
    requires p > 0
    ensures Or(x, 2 * p) == 2 * Or(x / 2, p) + x % 2
  {
    if x == 0 {
      assert Or(0, p) == p;
    }
  }

  /** `&` with an odd mask keeps the low bit. */
  lemma AndOdd(y: nat, m: nat)
    requires y > 0 && m % 2 == 1
    ensures And(y, m) == 2 * And(y / 2, m / 2) + y % 2
  {
  }

  /** `(x | 2^(k+1)) & (2^(k+1) + 2^k - 1)` sets bit `k+1`, clears bit `k`
      and everything above, and keeps the bits below `k`. */
  lemma {:induction false} OrAndMark(x: nat, k: nat)
    ensures And(Or(x, Pow2(k + 1)), Pow2(k + 1) + Pow2(k) - 1) == Pow2(k + 1) + x % Pow2(k)
    decreases k, 1
  {
    if k == 0 {
      assert Pow2(1) == 2 && Pow2(0) == 1;
      OrAndTwo(x);
    } else {
      var p, q := Pow2(k), Pow2(k - 1);
      assert Pow2(k + 1) == 2 * p && p == 2 * q;
      OrAndMarkStep(x, k, p, q);
    }
  }

  lemma {:induction false} OrAndMarkStep(x: nat, k: nat, p: nat, q: nat)
    requires k > 0 && p == Pow2(k) && q == Pow2(k - 1) && p == 2 * q
    ensures And(Or(x, 2 * p), 2 * p + p - 1) == 2 * p + x % p
    decreases k, 0
  {
    var h, b := x / 2, x % 2;
    OrAndStep(x, p, q);
    assert k - 1 + 1 == k;
    OrAndMark(h, k - 1);
    var r := h % q;
    assert And(Or(h, p), p + q - 1) == p + r;
    DivDiv(x, 2, q);
    assert x % p == 2 * r + b;
  }

  /** One step of `OrAndMark`: the low bit of `x` passes through, the rest
      is the same question one bit lower. */
  lemma OrAndStep(x: nat, p: nat, q: nat)
    requires q > 0 && p == 2 * q
    ensures And(Or(x, 2 * p), 2 * p + p - 1) == 2 * And(Or(x / 2, p), p + q - 1) + x % 2
  {
    var y, m := Or(x, 2 * p), 2 * p + p - 1;
    var a, b := Or(x / 2, p), p + q - 1;
    OrEven(x, p);
    OrPositive(x, 2 * p);
    DivModUnique(y, 2, a, x % 2);
    DivModUnique(m, 2, b, 1);
    AndStep(y, m, a, b);
  }

  lemma AndStep(y: nat, m: nat, a: nat, b: nat)
    requires y > 0 && m % 2 == 1 && y / 2 == a && m / 2 == b
    ensures And(y, m) == 2 * And(a, b) + y % 2
  {
    AndOdd(y, m);
  }

  /** The case `k = 0`: `(x | 2) & 2 == 2`. */
  lemma OrAndTwo(x: nat)
    ensures And(Or(x, 2), 2) == 2
  {
    var y := Or(x, 2);
    OrEven(x, 1);
    OrPositive(x, 2);
    OrOne(x / 2);
    var z := Or(x / 2, 1);
    DivModUnique(y, 2, z, x % 2);
    assert And(y, 2) == 2 * And(z, 1);
    AndLowMask(z, 1);
    assert Pow2(1) == 2;
  }

  /** `| 1` makes a word odd. */
  lemma OrOne(z: nat)
    ensures Or(z, 1) % 2 == 1
  {
  }

  /**
   * The reference: the byte sequence section 3 of RFC 3629 gives a scalar
   * value below 0x110000, six bits per continuation byte (10xxxxxx) and
   * the rest in the lead byte (0xxxxxxx, 110xxxxx, 1110xxxx, 11110xxx).
   */
  function Scalar(cp: nat): (b: seq<U8>)
    requires cp < 0x11_0000
  {
    var a, x := cp % 64, cp / 64;
    var c, y := x % 64, x / 64;
    var d, z := y % 64, y / 64;
    if cp < 0x80 then [cp]
    else if cp < 0x800 then [0xC0 + x, 0x80 + a]
    else if cp < 0x1_0000 then [0xE0 + y, 0x80 + c, 0x80 + a]
    else [0xF0 + z, 0x80 + d, 0x80 + c, 0x80 + a]
  }

  /** `(uchar)(u32 | firstByteMark[l])` on a value that fits below the
      marker is the marker plus the value, for `l` = 2, 3 and 4. */
  lemma LeadTwo(x: nat)
    requires x < 32
    ensures Or(x, 0xC0) % 256 == 0xC0 + x
  {
    Pow2Small();
    OrComm(x, 6 * Pow2(5));
    OrDisjoint(6, x, 5);
    ModSmall(Or(x, 0xC0), 256);
  }

  lemma LeadThree(x: nat)
    requires x < 16
    ensures Or(x, 0xE0) % 256 == 0xE0 + x
  {
    assert Pow2(4) == 16;
    OrComm(x, 14 * Pow2(4));
    OrDisjoint(14, x, 4);
    ModSmall(Or(x, 0xE0), 256);
  }

  lemma LeadFour(x: nat)
    requires x < 8
    ensures Or(x, 0xF0) % 256 == 0xF0 + x
  {
    assert Pow2(3) == 8;
    OrComm(x, 30 * Pow2(3));
    OrDisjoint(30, x, 3);
    ModSmall(Or(x, 0xF0), 256);
  }

  /** The shifts of utf32to8: `x >> 6`, twice and three times. */
  lemma Shifts(x: nat)
    ensures Shr(x, 6) == x / 64
    ensures Shr(Shr(x, 6), 6) == x / 64 / 64
    ensures Shr(Shr(Shr(x, 6), 6), 6) == x / 64 / 64 / 64
  {
    Pow2Small();
  }

  /** The four places of a code point below 0x110000 in base 64. */
  lemma Places(cp: nat)
    requires cp < 0x11_0000
    ensures var x := cp / 64; var y := x / 64;
            cp == 64 * x + cp % 64 && x == 64 * y + x % 64 && y == 64 * (y / 64) + y % 64 &&
            (cp < 0x800 ==> x < 32) && (cp < 0x1_0000 ==> y < 16) && y / 64 < 8
  {
  }

  /** utf32to8 writes the bytes of RFC 3629 for every code point it takes
      as it is. */
  lemma Utf32To8IsScalar(cp: U32)
    requires cp < 0x11_0000
    ensures Utf32To8(cp) == Scalar(cp)
  {
    if cp < 0x80 {
      assert Utf32To8(cp) == [Or(cp, 0) % 256];
    } else if cp < 0x800 {
      ScalarTwo(cp);
    } else if cp < 0x1_0000 {
      ScalarThree(cp);
    } else {
      ScalarFour(cp);
    }
  }

  lemma ScalarTwo(cp: U32)
    requires 0x80 <= cp < 0x800
    ensures Utf32To8(cp) == Scalar(cp)
  {
    Places(cp);
    assert Scalar(cp) == [0xC0 + cp / 64, 0x80 + cp % 64];
    assert Utf32To8(cp) == Bytes(cp, 1, 0xC0);
    WriteTwo(cp);
  }

  lemma ScalarThree(cp: U32)
    requires 0x800 <= cp < 0x1_0000
    ensures Utf32To8(cp) == Scalar(cp)
  {
    Places(cp);
    var x := cp / 64;
    assert Scalar(cp) == [0xE0 + x / 64, 0x80 + x % 64, 0x80 + cp % 64];
    assert Utf32To8(cp) == Bytes(cp, 2, 0xE0);
    WriteThree(cp);
  }

  lemma ScalarFour(cp: U32)
    requires 0x1_0000 <= cp < 0x11_0000
    ensures Utf32To8(cp) == Scalar(cp)
  {
    Places(cp);
    Shifts(cp);
    var x := cp / 64;
    var y := x / 64;
    assert Scalar(cp) == [0xF0 + y / 64, 0x80 + y % 64, 0x80 + x % 64, 0x80 + cp % 64];
    assert Utf32To8(cp) == Bytes(cp, 3, 0xF0);
    WriteFour(cp);
  }

  lemma WriteTwo(v: nat)
    requires v / 64 < 32
    ensures Bytes(v, 1, 0xC0) == [0xC0 + v / 64, 0x80 + v % 64]
  {
    var x := Shr(v, 6);
    Shifts(v);
    LeadTwo(x);
    assert Bytes(x, 0, 0xC0) == [0xC0 + x];
  }

  lemma WriteThree(v: nat)
    requires v / 64 / 64 < 16
    ensures Bytes(v, 2, 0xE0) == [0xE0 + v / 64 / 64, 0x80 + v / 64 % 64, 0x80 + v % 64]
  {
    Shifts(v);
    var x := Shr(v, 6);
    LeadThree(v / 64 / 64);
    assert Bytes(x, 1, 0xE0) == [0xE0 + v / 64 / 64, Cont(x)];
  }

  lemma WriteFour(v: nat)
    requires Shr(Shr(Shr(v, 6), 6), 6) < 8
    ensures var x := Shr(v, 6); var y := Shr(x, 6);
            Bytes(v, 3, 0xF0) == [0xF0 + Shr(y, 6), 0x80 + y % 64, 0x80 + x % 64, 0x80 + v % 64]
  {
    var x := Shr(v, 6);
    var y := Shr(x, 6);
    var z := Shr(y, 6);
    LeadFour(z);
    assert Bytes(z, 0, 0xF0) == [0xF0 + z];
    assert Bytes(y, 1, 0xF0) == [0xF0 + z, Cont(y)];
    assert Bytes(x, 2, 0xF0) == [0xF0 + z, Cont(y), Cont(x)];
  }

  /** `u32 <<= 6; u32 += c` does not wrap while the value is small. */
  lemma StepValue(u: U32, c: U8)
    requires u < 0x100_0000
    ensures Step(u, c) == 64 * u + c
  {
    Pow2Small();
    Pow2Is32();
    ModSmall(64 * u, B32);
    ModSmall(64 * u + c, B32);
  }

  lemma AccumulateStep(s: seq<U8>, k: nat)
    requires 0 < k < |s| && Accumulate(s[..k]) < 0x100_0000
    ensures Accumulate(s[..k + 1]) == 64 * Accumulate(s[..k]) + s[k]
  {
    assert s[..k + 1][..k] == s[..k];
    StepValue(Accumulate(s[..k]), s[k]);
  }

  /** The first byte accumulates to itself. */
  lemma AccumulateFirst(s: seq<U8>)
    requires |s| > 0
    ensures Accumulate(s[..1]) == s[0]
  {
    assert s[..1][..0] == [];
    StepValue(0, s[0]);
  }

  /** Reading a two-byte sequence: the lead byte's five bits, then the
      continuation byte's six. */
  lemma ReadTwo(s: seq<U8>)
    requires |s| >= 2 && 0xC0 <= s[0] < 0xE0 && 0x80 <= s[1] < 0xC0
    ensures Utf8To32(s) == Read(64 * (s[0] as int - 0xC0) + (s[1] as int - 0x80), 2)
  {
    AccumulateFirst(s);
    AccumulateStep(s, 1);
    ModSmall(Accumulate(s[..2]) - 0x3080, B32);
  }

  /** Reading a three-byte sequence. */
  lemma ReadThree(s: seq<U8>)
    requires |s| >= 3 && 0xE0 <= s[0] < 0xF0 && 0x80 <= s[1] < 0xC0 && 0x80 <= s[2] < 0xC0
    ensures Utf8To32(s) == Read(4096 * (s[0] as int - 0xE0) + 64 * (s[1] as int - 0x80) + (s[2] as int - 0x80), 3)
  {
    var t := Accumulate(s[..3]);
    AccumulateThree(s);
    assert t == 4096 * (s[0] as int) + 64 * (s[1] as int) + s[2] as int;
    ModSmall(t - 0xE_2080, B32);
  }

  lemma AccumulateThree(s: seq<U8>)
    requires |s| >= 3 && s[0] < 0xF0
    ensures Accumulate(s[..3]) == 4096 * (s[0] as int) + 64 * (s[1] as int) + s[2] as int
  {
    AccumulateFirst(s);
    AccumulateStep(s, 1);
    AccumulateStep(s, 2);
  }

  lemma AccumulateFour(s: seq<U8>)
    requires |s| >= 4 && s[0] < 0xF8
    ensures Accumulate(s[..4]) ==
              262144 * (s[0] as int) + 4096 * (s[1] as int) + 64 * (s[2] as int) + s[3] as int
  {
    AccumulateFirst(s);
    AccumulateStep(s, 1);
    AccumulateStep(s, 2);
    AccumulateStep(s, 3);
  }

  /** Reading a four-byte sequence. */
  lemma ReadFour(s: seq<U8>)
    requires |s| >= 4 && 0xF0 <= s[0] < 0xF8
    requires 0x80 <= s[1] < 0xC0 && 0x80 <= s[2] < 0xC0 && 0x80 <= s[3] < 0xC0
    ensures Utf8To32(s) ==
              Read(262144 * (s[0] as int - 0xF0) + 4096 * (s[1] as int - 0x80) + 64 * (s[2] as int - 0x80) + (s[3] as int - 0x80), 4)
  {
    var t := Accumulate(s[..4]);
    AccumulateFour(s);
    assert t == 262144 * (s[0] as int) + 4096 * (s[1] as int) + 64 * (s[2] as int) + s[3] as int;
    ModSmall(t - 0x3C8_2080, B32);
  }

  /** utf8to32 reads every RFC 3629 sequence back to its code point,
      consuming exactly its bytes. */
  lemma ReadScalar(cp: nat)
    requires cp < 0x11_0000
    ensures |Scalar(cp)| >= Needed(Scalar(cp)[0])
    ensures Utf8To32(Scalar(cp)) == Read(cp, |Scalar(cp)|)
  {
    Places(cp);
    var s := Scalar(cp);
    if cp < 0x80 {
    } else if cp < 0x800 {
      ReadTwo(s);
    } else if cp < 0x1_0000 {
      ReadThree(s);
    } else {
      ReadFour(s);
    }
  }

  /** The round trip: utf8to32 reads back what utf32to8 wrote, U+FFFD for a
      value above U+10FFFF, and consumes every byte written. */
  lemma RoundTrip(cp: U32)
    ensures |Utf32To8(cp)| >= Needed(Utf32To8(cp)[0])
    ensures Utf8To32(Utf32To8(cp)) ==
              Read(if cp < 0x11_0000 then cp else Replacement, |Utf32To8(cp)|)
  {
    if cp < 0x11_0000 {
      Utf32To8IsScalar(cp);
      ReadScalar(cp);
    } else {
      Utf32To8IsScalar(Replacement);
      ReadScalar(Replacement);
    }
  }

  /** utf8to32 does not reject an overlong form: C0 80 reads as U+0000. */
  lemma OverlongAccepted()
    ensures Utf8To32([0xC0, 0x80]) == Read(0, 2)
  {
    ReadTwo([0xC0, 0x80]);
  }
}
