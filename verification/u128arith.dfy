/**
 * The out-of-line part of the portable 128-bit arithmetic, uint128t.c (the
 * same text as binutils.c): schoolbook multiplication, the leading-zero
 * count, Knuth's two-digit division of 128 by 64 bits, and 128 by 128
 * division built on it.
 */
module UInt128Arith {
  import opened Arith
  import opened UInt128

  const Max64: U64 := 0xFFFF_FFFF_FFFF_FFFF

  // ---------------------------------------------------------------------
  // mul_u128

  /** The general branch of mul_u128: the full 64x64 product of the low
      limbs from four 32-bit partial products, and the cross terms added
      into the high limb.  Every intermediate is a uint64. */
  function MulLimbs(a: U128, b: U128): (r: U128)
    ensures Val(r) == (Val(a) * Val(b)) % B128
  {
    var (hi, lo) := MulWide(a.lo, b.lo);
    var r := U128((hi + (a.lo * b.hi) % B64 + (a.hi * b.lo) % B64) % B64, lo);
    MulLimbsValue(a, b, hi, lo, r);
    r
  }

  lemma MulLimbsValue(a: U128, b: U128, hi: nat, lo: U64, r: U128)
    requires hi * B64 + lo == a.lo * b.lo
    requires r == U128((hi + (a.lo * b.hi) % B64 + (a.hi * b.lo) % B64) % B64, lo)
    ensures Val(r) == (Val(a) * Val(b)) % B128
  {
    CrossTerms(a.hi, a.lo, b.hi, b.lo, hi, lo);
  }

  /** The full product of the low limbs from four 32-bit partial products,
      as the high and the low 64-bit word. */
  function MulWide(x: U64, y: U64): (p: (U64, U64))
    ensures p.0 * B64 + p.1 == x * y
  {
    var u0, u1 := Hi32(x), Lo32(x);
    var v0, v1 := Hi32(y), Lo32(y);
    var t := MulAdd(u1, v1, 0, 0);
    var w3, k := Lo32(t), Hi32(t);
    var t2 := MulAdd(u0, v1, k, 0);
    var w2, w1 := Lo32(t2), Hi32(t2);
    var t3 := MulAdd(u1, v0, w2, 0);
    var k2 := Hi32(t3);
    var hi := MulAdd(u0, v0, w1, k2);
    var lo := JoinLow(t3, w3);
    LowProduct(x, y, u0, u1, v0, v1, t, w3, k, t2, w2, w1, t3, k2, hi, lo);
    (hi, lo)
  }

  /** The high 32 bits of a 64-bit word, `x >> 32`. */
  function Hi32(x: U64): (r: U32)
    ensures r == x / B32
  {
    Digits(x);
    Shr(x, 32)
  }

  /** The low 32 bits of a 64-bit word, `x & 0xFFFFFFFF`. */
  function Lo32(x: U64): (r: U32)
    ensures r == x % B32
  {
    Digits(x);
    And(x, 0xFFFF_FFFF)
  }

  /** A 64-bit product of two 32-bit digits plus two more digits: the
      uint64 arithmetic of mul_u128 never wraps here. */
  function MulAdd(x: U32, y: U32, c: U32, d: U32): (t: U64)
    ensures t == x * y + c + d
  {
    PartialFits(x, y, c, d);
    (x * y + c + d) % B64
  }

  /** The low word of mul_u128, `(t3 << 32) + w3`: the low digit of `t3`
      shifted up, plus `w3`. */
  function JoinLow(t3: U64, w3: U32): (lo: U64)
    ensures lo == (t3 % B32) * B32 + w3
  {
    var d := t3 % B32;
    assert Shl(t3, 32, 64) == d * B32 by {
      Pow2Is32();
      ShlValue(t3, 32, 64);
    }
    LowWord(d, w3);
    (Shl(t3, 32, 64) + w3) % B64
  }

  /** The 32-bit digits of a 64-bit limb. */
  lemma Digits(x: U64)
    ensures Shr(x, 32) < B32 && And(x, 0xFFFF_FFFF) < B32
    ensures Shr(x, 32) == x / B32 && And(x, 0xFFFF_FFFF) == x % B32
  {
    Pow2Is32();
    AndLowMask(x, 32);
    DivBelow(x, B32, B32);
  }

  /** The four 32-bit partial products of mul_u128 give the full 128-bit
      product of two 64-bit limbs, as the high word `hi` and low word `lo`. */
  lemma LowProduct(x: nat, y: nat, u0: nat, u1: nat, v0: nat, v1: nat, t: nat, w3: nat, k: nat,
                   t2: nat, w2: nat, w1: nat, t3: nat, k2: nat, hi: nat, lo: nat)
    requires u0 == x / B32 && u1 == x % B32 && v0 == y / B32 && v1 == y % B32
    requires t == u1 * v1 + 0 + 0 && w3 == t % B32 && k == t / B32
    requires t2 == u0 * v1 + k + 0 && w2 == t2 % B32 && w1 == t2 / B32
    requires t3 == u1 * v0 + w2 + 0 && k2 == t3 / B32
    requires hi == u0 * v0 + w1 + k2 && lo == (t3 % B32) * B32 + w3
    ensures hi * B64 + lo == x * y
  {
    Expand(u0, u1, v0, v1, B32);
    Carries(u0 * v0, u0 * v1, u1 * v0, u1 * v1, B32, w3, k, w1, w2, k2, t3 % B32);
  }

  lemma PartialFits(x: nat, y: nat, c: nat, d: nat)
    requires x < B32 && y < B32 && c < B32 && d < B32
    ensures x * y + c + d < B64 && (x * y + c + d) % B64 == x * y + c + d
  {
    MulLe(x, B32 - 1, y);
    MulLe(y, B32 - 1, B32 - 1);
    DivModUnique(x * y + c + d, B64, 0, x * y + c + d);
  }

  lemma LowWord(x: nat, w: nat)
    requires x < B32 && w < B32
    ensures (x * B32 + w) % B64 == x * B32 + w
  {
    MulLe(x, B32 - 1, B32);
    DivModUnique(x * B32 + w, B64, 0, x * B32 + w);
  }

  /** The carries of the schoolbook steps cancel out. */
  lemma Carries(p: int, q: int, r: int, s: int, w: int, w3: int, k: int, w1: int, w2: int, k2: int, r3: int)
    requires s == k * w + w3 && q + k == w1 * w + w2 && r + w2 == k2 * w + r3
    ensures (p + w1 + k2) * (w * w) + (r3 * w + w3) == p * (w * w) + q * w + r * w + s
  {
    var a, b := w1 * w, k2 * w;
    Assoc(w1, w, w);
    Assoc(k2, w, w);
    Spread(p, w1, k2, w * w);
    Spread(a, b, r3, w);
    assert a + b + r3 == q + r + k;
    Spread(q, r, k, w);
  }

  lemma Assoc(a: int, b: int, c: int)
    ensures a * (b * c) == (a * b) * c
  {
  }

  lemma Expand(u0: nat, u1: nat, v0: nat, v1: nat, w: nat)
    ensures (u0 * w + u1) * (v0 * w + v1) == (u0 * v0) * (w * w) + (u0 * v1) * w + (u1 * v0) * w + u1 * v1
  {
  }

  lemma Spread(a: int, b: int, c: int, w: int)
    ensures (a + b + c) * w == a * w + b * w + c * w
  {
  }

  /** Adding the cross products into the high limb gives the product modulo 2^128. */
  lemma CrossTerms(ah: U64, al: U64, bh: U64, bl: U64, hi: nat, lo: nat)
    requires hi * B64 + lo == al * bl && lo < B64
    ensures ((hi + (al * bh) % B64 + (ah * bl) % B64) % B64) * B64 + lo
              == ((ah * B64 + al) * (bh * B64 + bl)) % B128
  {
    var c1, c2 := al * bh, ah * bl;
    var top := hi + c1 % B64 + c2 % B64;
    assert (ah * B64 + al) * (bh * B64 + bl) == ah * bh * B128 + (c1 + c2) * B64 + al * bl;
    var q := ah * bh + c1 / B64 + c2 / B64 + top / B64;
    assert c1 == (c1 / B64) * B64 + c1 % B64 && c2 == (c2 / B64) * B64 + c2 % B64;
    assert top == (top / B64) * B64 + top % B64;
    assert (ah * B64 + al) * (bh * B64 + bl) == q * B128 + (top % B64) * B64 + lo;
    MulLe(top % B64, B64 - 1, B64);
    DivModUnique((ah * B64 + al) * (bh * B64 + bl), B128, q, (top % B64) * B64 + lo);
  }

  /** mul_u128 as written: the shortcut meant for a factor of one tests the
      limbs (hi, lo) == (1, 0), which is the value 2^64, and then returns the
      other factor unchanged. */
  function Mul(a: U128, b: U128): (r: U128)
    ensures Val(a) != B64 && Val(b) != B64 ==> Val(r) == (Val(a) * Val(b)) % B128
    ensures Val(a) == B64 && Val(b) != 0 ==> r == b
    ensures Val(b) == B64 && Val(a) != 0 && Val(a) != B64 ==> r == a
  {
    LexOrder(a, U128(1, 0));
    LexOrder(U128(1, 0), a);
    LexOrder(b, U128(1, 0));
    LexOrder(U128(1, 0), b);
    if (a.lo == 0 && a.hi == 0) || (b.lo == 0 && b.hi == 0) then U128(0, 0)
    else if a.lo == 0 && a.hi == 1 then b
    else if b.lo == 0 && b.hi == 1 then a
    else MulLimbs(a, b)
  }

  /** mul_u128 with the shortcut testing for the value one, as intended. */
  function MulFixed(a: U128, b: U128): (r: U128)
    ensures Val(r) == (Val(a) * Val(b)) % B128
  {
    ValBound(a);
    ValBound(b);
    DivModUnique(Val(b), B128, 0, Val(b));
    DivModUnique(Val(a), B128, 0, Val(a));
    if (a.lo == 0 && a.hi == 0) || (b.lo == 0 && b.hi == 0) then U128(0, 0)
    else if a.lo == 1 && a.hi == 0 then b
    else if b.lo == 1 && b.hi == 0 then a
    else MulLimbs(a, b)
  }

  /** The shortcut at work: 2^64 times 1 comes out as 1. */
  lemma MulShortcutWrong()
    ensures Val(Mul(U128(1, 0), U128(0, 1))) == 1
    ensures Val(MulFixed(U128(1, 0), U128(0, 1))) == B64
  {
    DivModUnique(B64, B128, 0, B64);
  }

  /** Everywhere else the two agree. */
  lemma MulAgrees(a: U128, b: U128)
    requires Val(a) != B64 && Val(b) != B64
    ensures Mul(a, b) == MulFixed(a, b)
  {
    ValInjective(Mul(a, b), MulFixed(a, b));
  }

  // ---------------------------------------------------------------------
  // normalize

  /** One step of normalize: when the value fits below `limit`, count
      `bits` more leading zeros and shift them out. */
  function NormStep(m: nat, u: U64, limit: nat, bits: nat): (U64, nat)
    requires bits < 64
  {
    Pow2Is64();
    if u <= limit then (Shl(u, bits, 64), m + bits) else (u, m)
  }

  /** normalize: the number of leading zero bits of a non-zero 64-bit word;
      63 for zero. */
  function Normalize(u: U64): (m: nat)
    ensures u == 0 ==> m == 63
    ensures u != 0 ==> m < 64 && Pow2(63) <= u * Pow2(m) < B64
  {
    var (u1, m1) := NormStep(0, u, 0x0000_0000_FFFF_FFFF, 32);
    var (u2, m2) := NormStep(m1, u1, 0x0000_FFFF_FFFF_FFFF, 16);
    var (u3, m3) := NormStep(m2, u2, 0x00FF_FFFF_FFFF_FFFF, 8);
    var (u4, m4) := NormStep(m3, u3, 0x0FFF_FFFF_FFFF_FFFF, 4);
    var (u5, m5) := NormStep(m4, u4, 0x3FFF_FFFF_FFFF_FFFF, 2);
    NormSteps(u);
    if u5 <= 0x7FFF_FFFF_FFFF_FFFF then m5 + 1 else m5
  }

  /** What a step keeps: the word stays the input shifted left by the count
      so far, and a word at least `lo` is at least `limit + 1` afterwards. */
  lemma NormStepKeeps(u: U64, m: nat, cur: U64, bits: nat, lo: nat, limit: nat)
    requires 0 < bits < 64
    requires limit + 1 == Pow2(64 - bits) && limit + 1 == lo * Pow2(bits)
    requires cur == u * Pow2(m) && (u != 0 ==> cur >= lo)
    ensures var (c, n) := NormStep(m, cur, limit, bits);
            c == u * Pow2(n) && n <= m + bits && (u != 0 ==> c >= limit + 1) &&
            (u == 0 ==> n == m + bits)
  {
    if cur <= limit {
      ShlExact(cur, bits, 64);
      ShiftTwice(u, m, bits);
      if u != 0 {
        MulLe(lo, cur, Pow2(bits));
      }
    }
  }

  lemma Norm32(u: U64)
    ensures var (c, n) := NormStep(0, u, 0x0000_0000_FFFF_FFFF, 32);
            c == u * Pow2(n) && n <= 32 && (u != 0 ==> c >= 0x1_0000_0000) && (u == 0 ==> n == 32)
  {
    Pow2Is32();
    NormStepKeeps(u, 0, u, 32, 1, 0x0000_0000_FFFF_FFFF);
  }

  lemma Norm16(u: U64, m: nat, cur: U64)
    requires cur == u * Pow2(m) && (u != 0 ==> cur >= 0x1_0000_0000)
    ensures var (c, n) := NormStep(m, cur, 0x0000_FFFF_FFFF_FFFF, 16);
            c == u * Pow2(n) && n <= m + 16 && (u != 0 ==> c >= 0x1_0000_0000_0000) && (u == 0 ==> n == m + 16)
  {
    Pow2Is48();
    Pow2Is16();
    NormStepKeeps(u, m, cur, 16, 0x1_0000_0000, 0x0000_FFFF_FFFF_FFFF);
  }

  lemma Norm8(u: U64, m: nat, cur: U64)
    requires cur == u * Pow2(m) && (u != 0 ==> cur >= 0x1_0000_0000_0000)
    ensures var (c, n) := NormStep(m, cur, 0x00FF_FFFF_FFFF_FFFF, 8);
            c == u * Pow2(n) && n <= m + 8 && (u != 0 ==> c >= 0x100_0000_0000_0000) && (u == 0 ==> n == m + 8)
  {
    Pow2Is56();
    Pow2Small();
    NormStepKeeps(u, m, cur, 8, 0x1_0000_0000_0000, 0x00FF_FFFF_FFFF_FFFF);
  }

  lemma Norm4(u: U64, m: nat, cur: U64)
    requires cur == u * Pow2(m) && (u != 0 ==> cur >= 0x100_0000_0000_0000)
    ensures var (c, n) := NormStep(m, cur, 0x0FFF_FFFF_FFFF_FFFF, 4);
            c == u * Pow2(n) && n <= m + 4 && (u != 0 ==> c >= 0x1000_0000_0000_0000) && (u == 0 ==> n == m + 4)
  {
    Pow2Is60();
    assert Pow2(4) == 0x10;
    NormStepKeeps(u, m, cur, 4, 0x100_0000_0000_0000, 0x0FFF_FFFF_FFFF_FFFF);
  }

  lemma Norm2(u: U64, m: nat, cur: U64)
    requires cur == u * Pow2(m) && (u != 0 ==> cur >= 0x1000_0000_0000_0000)
    ensures var (c, n) := NormStep(m, cur, 0x3FFF_FFFF_FFFF_FFFF, 2);
            c == u * Pow2(n) && n <= m + 2 && (u != 0 ==> c >= 0x4000_0000_0000_0000) && (u == 0 ==> n == m + 2)
  {
    Pow2Is62();
    assert Pow2(2) == 4;
    NormStepKeeps(u, m, cur, 2, 0x1000_0000_0000_0000, 0x3FFF_FFFF_FFFF_FFFF);
  }

  /** The last test counts the top zero bit without shifting. */
  lemma Norm1(u: U64, m: nat, cur: U64)
    requires m <= 62 && cur == u * Pow2(m) && (u != 0 ==> cur >= 0x4000_0000_0000_0000)
    ensures var n := if cur <= 0x7FFF_FFFF_FFFF_FFFF then m + 1 else m;
            n < 64 && (u != 0 ==> Pow2(63) <= u * Pow2(n) < B64)
  {
    Pow2Is63();
    if cur <= 0x7FFF_FFFF_FFFF_FFFF {
      ShiftTwice(u, m, 1);
    }
  }

  lemma NormSteps(u: U64)
    ensures
      var (u1, m1) := NormStep(0, u, 0x0000_0000_FFFF_FFFF, 32);
      var (u2, m2) := NormStep(m1, u1, 0x0000_FFFF_FFFF_FFFF, 16);
      var (u3, m3) := NormStep(m2, u2, 0x00FF_FFFF_FFFF_FFFF, 8);
      var (u4, m4) := NormStep(m3, u3, 0x0FFF_FFFF_FFFF_FFFF, 4);
      var (u5, m5) := NormStep(m4, u4, 0x3FFF_FFFF_FFFF_FFFF, 2);
      var m := if u5 <= 0x7FFF_FFFF_FFFF_FFFF then m5 + 1 else m5;
      (u == 0 ==> m == 63) && (u != 0 ==> m < 64 && Pow2(63) <= u * Pow2(m) < B64)
  {
    var (u1, m1) := NormStep(0, u, 0x0000_0000_FFFF_FFFF, 32);
    Norm32(u);
    var (u2, m2) := NormStep(m1, u1, 0x0000_FFFF_FFFF_FFFF, 16);
    Norm16(u, m1, u1);
    var (u3, m3) := NormStep(m2, u2, 0x00FF_FFFF_FFFF_FFFF, 8);
    Norm8(u, m2, u2);
    var (u4, m4) := NormStep(m3, u3, 0x0FFF_FFFF_FFFF_FFFF, 4);
    Norm4(u, m3, u3);
    var (u5, m5) := NormStep(m4, u4, 0x3FFF_FFFF_FFFF_FFFF, 2);
    Norm2(u, m4, u4);
    Norm1(u, m5, u5);
    if u == 0 {
      assert u5 == 0;
    }
  }
}
