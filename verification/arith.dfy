/**
 * Powers of two, the C bit operators on unsigned integers, and the
 * division facts the 64- and 128-bit arithmetic rests on.  Unsigned
 * machine words are modelled as bounded naturals; `&`, `|`, `<<` and `>>`
 * are defined bit by bit and related to arithmetic by the lemmas here.
 */
module Arith {

  const B8: nat := 0x100
  const B16: nat := 0x1_0000
  const B32: nat := 0x1_0000_0000
  const B64: nat := 0x1_0000_0000_0000_0000
  const B128: nat := 0x1_0000_0000_0000_0000_0000_0000_0000_0000

  /** The unsigned machine words. */
  type U8 = x: nat | x < B8
  type U16 = x: nat | x < B16
  type U32 = x: nat | x < B32
  type U64 = x: nat | x < B64

  function Pow2(n: nat): (r: nat)
    ensures r >= 1
  {
    if n == 0 then 1 else 2 * Pow2(n - 1)
  }

  lemma {:induction false} Pow2Add(a: nat, b: nat)
    ensures Pow2(a + b) == Pow2(a) * Pow2(b)
    decreases a
  {
    if a > 0 {
      Pow2Add(a - 1, b);
    }
  }

  lemma {:induction false} Pow2Mono(a: nat, b: nat)
    requires a <= b
    ensures Pow2(a) <= Pow2(b)
  {
    Pow2Add(a, b - a);
    MulGe(Pow2(b - a), Pow2(a));
  }

  /** Shifting by `a` and then by `b` is shifting by `a + b`. */
  lemma ShiftTwice(x: nat, a: nat, b: nat)
    ensures x * Pow2(a + b) == (x * Pow2(a)) * Pow2(b)
  {
    Pow2Add(a, b);
    var p, q := Pow2(a), Pow2(b);
    assert x * (p * q) == (x * p) * q;
  }

  /** The word sizes in powers of two, one lemma each so that a proof
      brings only the one it needs into scope. */
  lemma Pow2Is128()
    ensures Pow2(7) == 128
  {
  }

  /** The powers of two up to a byte. */
  lemma Pow2Small()
    ensures Pow2(2) == 4 && Pow2(3) == 8 && Pow2(4) == 16 && Pow2(5) == 32
    ensures Pow2(6) == 64 && Pow2(7) == 128 && Pow2(8) == 256
  {
    assert Pow2(1) == 2;
  }

  lemma Pow2Is16()
    ensures Pow2(16) == B16
  {
    assert Pow2(8) == B8;
    Pow2Add(8, 8);
  }

  lemma Pow2Is32()
    ensures Pow2(32) == B32
  {
    Pow2Is16();
    Pow2Add(16, 16);
  }

  lemma Pow2Is64()
    ensures Pow2(64) == B64
  {
    Pow2Is32();
    Pow2Add(32, 32);
  }

  lemma Pow2Is48()
    ensures Pow2(48) == 0x1_0000_0000_0000
  {
    Pow2Is32();
    Pow2Is16();
    Pow2Add(32, 16);
  }

  lemma Pow2Is56()
    ensures Pow2(56) == 0x100_0000_0000_0000
  {
    Pow2Is48();
    Pow2Add(48, 8);
  }

  lemma Pow2Is60()
    ensures Pow2(60) == 0x1000_0000_0000_0000
  {
    Pow2Is56();
    Pow2Add(56, 4);
  }

  lemma Pow2Is62()
    ensures Pow2(62) == 0x4000_0000_0000_0000
  {
    Pow2Is60();
    Pow2Add(60, 2);
  }

  lemma Pow2Is63()
    ensures Pow2(63) == 0x8000_0000_0000_0000
  {
    Pow2Is62();
  }

  lemma Pow2IsB128()
    ensures Pow2(128) == B128
  {
    Pow2Is64();
    Pow2Add(64, 64);
  }

  lemma MulGe(k: int, d: int)
    requires k >= 1 && d >= 0
    ensures k * d >= d
  {
    assert k * d == (k - 1) * d + d;
  }

  lemma MulLe(a: int, b: int, d: int)
    requires a <= b && d >= 0
    ensures a * d <= b * d
  {
    assert b * d == a * d + (b - a) * d;
  }

  lemma MulLt(a: int, b: int, d: int)
    requires a < b && d > 0
    ensures a * d < b * d
  {
    assert b * d == a * d + (b - a) * d;
    MulGe(b - a, d);
  }

  /** Quotient and remainder are determined by the division equation. */
  lemma DivModUnique(x: int, d: int, q: int, r: int)
    requires d > 0 && x == q * d + r && 0 <= r < d
    ensures q == x / d && r == x % d
  {
    var q0, r0 := x / d, x % d;
    assert x == q0 * d + r0;
    if q > q0 {
      MulGe(q - q0, d);
    } else if q < q0 {
      MulGe(q0 - q, d);
    }
  }

  /** Multiplying by `p` commutes with reduction modulo `m`, scaled by `p`. */
  lemma MulDivMod(x: nat, p: nat, m: nat)
    requires p > 0 && m > 0
    ensures (x * p) / (m * p) == x / m && (x * p) % (m * p) == (x % m) * p
  {
    assert x == (x / m) * m + x % m;
    assert x * p == (x / m) * (m * p) + (x % m) * p;
    MulLt(x % m, m, p);
    DivModUnique(x * p, m * p, x / m, (x % m) * p);
  }

  /** Dividing twice is dividing by the product. */
  lemma DivDiv(x: nat, a: nat, b: nat)
    requires a > 0 && b > 0
    ensures x / a / b == x / (a * b)
    ensures x % (a * b) == a * ((x / a) % b) + x % a
  {
    var y := x / a;
    assert x == a * y + x % a;
    assert y == b * (y / b) + y % b;
    assert x == (a * b) * (y / b) + (a * (y % b) + x % a) by {
      assert a * y == a * (b * (y / b)) + a * (y % b);
    }
    MulLe(y % b, b - 1, a);
    DivModUnique(x, a * b, y / b, a * (y % b) + x % a);
  }

  /** A value below `a * b` divided by `a` is below `b`. */
  lemma DivBelow(x: nat, a: nat, b: nat)
    requires a > 0 && x < a * b
    ensures x / a < b
  {
    assert x == (x / a) * a + x % a;
    if x / a >= b {
      MulLe(b, x / a, a);
    }
  }

  /** Dividing a larger value gives a larger quotient. */
  lemma DivMono(x: nat, y: nat, d: nat)
    requires d > 0 && x <= y
    ensures x / d <= y / d
  {
    assert x == (x / d) * d + x % d && y == (y / d) * d + y % d;
    if x / d > y / d {
      MulLe(y / d + 1, x / d, d);
    }
  }

  /** A larger divisor gives a smaller quotient. */
  lemma DivAnti(x: nat, d: nat, e: nat)
    requires 0 < d <= e
    ensures x / e <= x / d
  {
    assert x == (x / e) * e + x % e;
    MulLe(d, e, x / e);
    assert (x / e) * d <= x;
    assert x == (x / d) * d + x % d;
    if x / e > x / d {
      MulLe(x / d + 1, x / e, d);
    }
  }

  /** `q` is the quotient exactly when `q * d <= x < (q + 1) * d`. */
  lemma DivBetween(x: nat, d: nat, q: nat)
    requires d > 0 && q * d <= x < q * d + d
    ensures x / d == q && x % d == x - q * d
  {
    DivModUnique(x, d, q, x - q * d);
  }

  /** The C operator `&` on unsigned integers. */
  function And(a: nat, b: nat): nat
    decreases a
  {
    if a == 0 || b == 0 then 0
    else 2 * And(a / 2, b / 2) + (if a % 2 == 1 && b % 2 == 1 then 1 else 0)
  }

  /** The C operator `|` on unsigned integers. */
  function Or(a: nat, b: nat): nat
    decreases a
  {
    if a == 0 then b
    else if b == 0 then a
    else 2 * Or(a / 2, b / 2) + (if a % 2 == 1 || b % 2 == 1 then 1 else 0)
  }

  /** `|` is symmetric. */
  lemma {:induction false} OrComm(a: nat, b: nat)
    ensures Or(a, b) == Or(b, a)
    decreases a
  {
    if a != 0 && b != 0 {
      OrComm(a / 2, b / 2);
    }
  }

  /** The C operator `<<` on a word of `bits` bits, for a shift below the width. */
  function Shl(x: nat, n: nat, bits: nat): (r: nat)
    ensures r < Pow2(bits)
  {
    (x * Pow2(n)) % Pow2(bits)
  }

  /** The C operator `>>` on an unsigned word. */
  function Shr(x: nat, n: nat): nat {
    DivNat(x, Pow2(n));
    x / Pow2(n)
  }

  /** A remainder that changes nothing. */
  lemma ModSmall(y: int, m: nat)
    requires 0 <= y < m
    ensures y % m == y
  {
  }

  lemma DivNat(x: nat, d: nat)
    requires d > 0
    ensures 0 <= x / d <= x
  {
    DivAnti(x, 1, d);
  }

  /** Masking with `2^k - 1` keeps the low `k` bits. */
  lemma {:induction false} AndLowMask(x: nat, k: nat)
    ensures And(x, Pow2(k) - 1) == x % Pow2(k)
  {
    var m := Pow2(k) - 1;
    if k > 0 && x > 0 {
      var p := Pow2(k - 1);
      assert Pow2(k) == 2 * p;
      DivModUnique(m, 2, p - 1, 1);
      var bit := if x % 2 == 1 && m % 2 == 1 then 1 else 0;
      assert bit == x % 2;
      assert And(x, m) == 2 * And(x / 2, p - 1) + bit;
      AndLowMask(x / 2, k - 1);
      DivDiv(x, 2, p);
      assert And(x, m) == 2 * ((x / 2) % p) + x % 2 == x % (2 * p);
    } else if k == 0 {
      assert m == 0;
    } else {
      assert And(x, m) == 0;
      DivModUnique(0, Pow2(k), 0, 0);
    }
  }

  /** `&` with a mask of all ones on a word leaves the word alone. */
  lemma AndAllOnes(x: nat, k: nat)
    requires x < Pow2(k)
    ensures And(x, Pow2(k) - 1) == x
  {
    AndLowMask(x, k);
    DivModUnique(x, Pow2(k), 0, x);
  }

  /** `|` of a value shifted left by `s` and a value below `2^s` is their sum. */
  lemma {:induction false} OrDisjoint(a: nat, c: nat, s: nat)
    requires c < Pow2(s)
    ensures Or(a * Pow2(s), c) == a * Pow2(s) + c
  {
    if s > 0 && a > 0 && c > 0 {
      var p := Pow2(s - 1);
      assert a * Pow2(s) == 2 * (a * p);
      assert (a * Pow2(s)) / 2 == a * p && (a * Pow2(s)) % 2 == 0;
      DivBelow(c, 2, p);
      OrDisjoint(a, c / 2, s - 1);
    }
  }

  /** `x << n` loses the bits above the width: (x mod 2^(w-n)) * 2^n. */
  lemma ShlValue(x: nat, n: nat, bits: nat)
    requires n <= bits
    ensures Shl(x, n, bits) == (x % Pow2(bits - n)) * Pow2(n)
    ensures Shl(x, n, bits) % Pow2(n) == 0
  {
    var p, m := Pow2(n), Pow2(bits - n);
    Pow2Add(bits - n, n);
    assert Pow2(bits) == m * p;
    MulDivMod(x, p, m);
    var y := x % m;
    assert (y * p) % p == 0 by {
      DivModUnique(y * p, p, y, 0);
    }
  }

  /** A shift left that loses nothing is a multiplication. */
  lemma ShlExact(x: nat, n: nat, bits: nat)
    requires n <= bits && x < Pow2(bits - n)
    ensures Shl(x, n, bits) == x * Pow2(n)
  {
    ShlValue(x, n, bits);
    DivModUnique(x, Pow2(bits - n), 0, x);
  }
}
