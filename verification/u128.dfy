/**
 * The portable 128-bit unsigned integer of uint128t.h (and of its earlier
 * copy in binutils.h): a pair of 64-bit limbs, `quad[b2_1]` the high and
 * `quad[b2_0]` the low one.  Every operation is proved against the number
 * the limbs stand for, `Val`.
 */
module UInt128 {
  import opened Arith

  datatype U128 = U128(hi: U64, lo: U64)

  /** The number a pair of limbs stands for. */
  function Val(a: U128): nat {
    a.hi * B64 + a.lo
  }

  lemma ValBound(a: U128)
    ensures Val(a) < B128
  {
    MulLe(a.hi, B64 - 1, B64);
  }

  /** A number with a nonzero high limb is at least 2^64. */
  lemma ValWide(a: U128)
    requires a.hi != 0
    ensures Val(a) >= B64
  {
    MulGe(a.hi, B64);
  }

  /** The limbs of a number below 2^128. */
  function Of(n: nat): (r: U128)
    requires n < B128
    ensures Val(r) == n
  {
    DivBelow(n, B64, B64);
    U128(n / B64, n % B64)
  }

  /** Two limb pairs stand for the same number only when they are equal. */
  lemma ValInjective(a: U128, b: U128)
    requires Val(a) == Val(b)
    ensures a == b
  {
    DivModUnique(Val(a), B64, a.hi, a.lo);
    DivModUnique(Val(b), B64, b.hi, b.lo);
  }

  /** Comparing the high limbs first is comparing the numbers. */
  lemma LexOrder(a: U128, b: U128)
    ensures a.hi < b.hi ==> Val(a) < Val(b)
    ensures a.hi == b.hi ==> (Val(a) < Val(b) <==> a.lo < b.lo) && (Val(a) == Val(b) <==> a.lo == b.lo)
  {
    if a.hi < b.hi {
      MulLe(a.hi + 1, b.hi, B64);
    }
  }

  /** u64_to_u128t: on either byte order the value lands in the low limb. */
  function FromU64(u: U64): (r: U128)
    ensures Val(r) == u
  {
    U128(0, u)
  }

  /** eq_u128 */
  function Eq(a: U128, b: U128): (r: bool)
    ensures r <==> Val(a) == Val(b)
  {
    LexOrder(a, b);
    LexOrder(b, a);
    a.hi == b.hi && a.lo == b.lo
  }

  /** lt_u128 */
  function Lt(a: U128, b: U128): (r: bool)
    ensures r <==> Val(a) < Val(b)
  {
    LexOrder(a, b);
    LexOrder(b, a);
    if a.hi == b.hi then a.lo < b.lo else a.hi < b.hi
  }

  /** le_u128 */
  function Le(a: U128, b: U128): (r: bool)
    ensures r <==> Val(a) <= Val(b)
  {
    LexOrder(a, b);
    LexOrder(b, a);
    if a.hi == b.hi then
      if a.lo == b.lo then true else a.lo < b.lo
    else a.hi < b.hi
  }

  /** gt_u128 */
  function Gt(a: U128, b: U128): (r: bool)
    ensures r <==> Val(a) > Val(b)
  {
    LexOrder(a, b);
    LexOrder(b, a);
    if a.hi == b.hi then a.lo > b.lo else a.hi > b.hi
  }

  /** ge_u128 */
  function Ge(a: U128, b: U128): (r: bool)
    ensures r <==> Val(a) >= Val(b)
  {
    LexOrder(a, b);
    LexOrder(b, a);
    if a.hi == b.hi then
      if a.lo == b.lo then true else a.lo > b.lo
    else a.hi > b.hi
  }

  /** The shift count after `n &= 0x7F`. */
  function ShiftCount(n: U32): (m: nat)
    ensures m == n % 128
  {
    Pow2Is128();
    AndLowMask(n, 7);
    And(n, 0x7F)
  }

  /** shl_u128: the count is taken modulo 128, and bits above 2^128 are lost. */
  function ShlU(a: U128, n: U32): (r: U128)
    ensures Val(r) == (Val(a) * Pow2(n % 128)) % B128
  {
    var m := ShiftCount(n);
    Pow2Is64();
    if m == 0 then
      ShlZero(a);
      a
    else if m > 64 then
      ShlAbove(a, m);
      U128(Shl(a.lo, m - 64, 64), 0)
    else if m < 64 then
      ShlBelow(a, m);
      U128(Or(Shl(a.hi, m, 64), Shr(a.lo, 64 - m)), Shl(a.lo, m, 64))
    else
      ShlWord(a);
      U128(a.lo, 0)
  }

  lemma ShlZero(a: U128)
    ensures Val(a) == (Val(a) * Pow2(0)) % B128
  {
    ValBound(a);
    DivModUnique(Val(a), B128, 0, Val(a));
  }

  /** A shift by exactly one limb moves the low limb up. */
  lemma ShlWord(a: U128)
    ensures a.lo * B64 == (Val(a) * Pow2(64)) % B128
  {
    Pow2Is64();
    assert Val(a) * B64 == a.hi * B128 + a.lo * B64;
    MulLt(a.lo, B64, B64);
    DivModUnique(Val(a) * B64, B128, a.hi, a.lo * B64);
  }

  lemma ShlAbove(a: U128, m: nat)
    requires 64 < m < 128
    ensures Shl(a.lo, m - 64, 64) < B64
    ensures Shl(a.lo, m - 64, 64) * B64 == (Val(a) * Pow2(m)) % B128
  {
    Pow2Is64();
    var k := m - 64;
    var p, big := Pow2(k), Pow2(64 - k);
    Pow2Add(64 - k, k);
    Pow2Add(k, 64);
    ShlValue(a.lo, k, 64);
    ShlAboveAlgebra(a.hi, a.lo, p, big, B64);
    var low := (a.lo % big) * p;
    MulLt(low, B64, B64);
    DivModUnique(Val(a) * Pow2(m), B128, a.hi * p + a.lo / big, low * B64);
  }

  lemma ShlAboveAlgebra(h: nat, l: nat, p: nat, big: nat, w: nat)
    requires p > 0 && big > 0 && w == big * p
    ensures (h * w + l) * (p * w) == (h * p + l / big) * (w * w) + ((l % big) * p) * w
    ensures (l % big) * p < w
  {
    var l1, l0 := l / big, l % big;
    assert l == l1 * big + l0;
    assert l * p == l1 * w + l0 * p;
    assert (h * w + l) * (p * w) == h * p * (w * w) + (l * p) * w;
    MulLt(l0, big, p);
  }

  lemma ShlBelow(a: U128, m: nat)
    requires 0 < m < 64
    ensures Or(Shl(a.hi, m, 64), Shr(a.lo, 64 - m)) < B64
    ensures Or(Shl(a.hi, m, 64), Shr(a.lo, 64 - m)) * B64 + Shl(a.lo, m, 64) == (Val(a) * Pow2(m)) % B128
  {
    var p, big := Pow2(m), Pow2(64 - m);
    ShlBelowLimbs(a, m);
    ShlBelowAlgebra(a.hi, a.lo, p, big, B64);
    TwoLimbs((a.hi * B64 + a.lo) * p, a.hi / big, (a.hi % big) * p + a.lo / big, (a.lo % big) * p, B64);
  }

  /** The limbs shl_u128 computes for a shift below 64, in arithmetic terms. */
  lemma ShlBelowLimbs(a: U128, m: nat)
    requires 0 < m < 64
    ensures Pow2(64 - m) * Pow2(m) == B64
    ensures Or(Shl(a.hi, m, 64), Shr(a.lo, 64 - m)) == (a.hi % Pow2(64 - m)) * Pow2(m) + a.lo / Pow2(64 - m)
    ensures Shl(a.lo, m, 64) == (a.lo % Pow2(64 - m)) * Pow2(m)
  {
    Pow2Is64();
    Pow2Add(64 - m, m);
    ShlJoin(a.hi, a.lo, m, 64 - m, 64);
  }

  /** The two halves of a left shift across a limb boundary on `w`-bit limbs. */
  lemma ShlJoin(h: nat, l: nat, m: nat, k: nat, w: nat)
    requires w == m + k && l < Pow2(w)
    ensures Or(Shl(h, m, w), Shr(l, k)) == (h % Pow2(k)) * Pow2(m) + l / Pow2(k)
    ensures Shl(l, m, w) == (l % Pow2(k)) * Pow2(m)
  {
    ShlParts(h, l, m, k, w);
    OrDisjoint(h % Pow2(k), l / Pow2(k), m);
  }

  lemma ShlParts(h: nat, l: nat, m: nat, k: nat, w: nat)
    requires w == m + k && l < Pow2(w)
    ensures Shl(h, m, w) == (h % Pow2(k)) * Pow2(m)
    ensures Shr(l, k) == l / Pow2(k) < Pow2(m)
    ensures Shl(l, m, w) == (l % Pow2(k)) * Pow2(m)
  {
    var p, big := Pow2(m), Pow2(k);
    assert l / big < p by {
      Pow2Add(k, m);
      DivBelow(l, big, p);
    }
    ShlValue(h, m, w);
    ShlValue(l, m, w);
  }

  /** A number written with two limbs below `w` and anything above them. */
  lemma TwoLimbs(x: int, q: int, hi: nat, lo: nat, w: nat)
    requires hi < w && lo < w && x == q * (w * w) + hi * w + lo
    ensures x % (w * w) == hi * w + lo
  {
    MulLe(hi, w - 1, w);
    DivModUnique(x, w * w, q, hi * w + lo);
  }

  lemma ShlBelowAlgebra(h: nat, l: nat, p: nat, big: nat, w: nat)
    requires p > 0 && big > 0 && w == big * p && l < w
    ensures (h * w + l) * p == (h / big) * (w * w) + ((h % big) * p + l / big) * w + (l % big) * p
    ensures l / big < p && (h % big) * p + l / big < w
    ensures (l % big) * p < w
  {
    var h1, h0 := h / big, h % big;
    var l1, l0 := l / big, l % big;
    assert h == h1 * big + h0;
    assert l == l1 * big + l0;
    assert h * w * p == h1 * (w * w) + h0 * p * w by {
      assert h * p == h1 * w + h0 * p;
    }
    assert l * p == l1 * w + l0 * p;
    DivBelow(l, big, p);
    MulLe(h0, big - 1, p);
    assert (big - 1) * p == w - p;
    MulLt(l0, big, p);
  }

  /** shr_u128: the count is taken modulo 128. */
  function ShrU(a: U128, n: U32): (r: U128)
    ensures Val(r) == Val(a) / Pow2(n % 128)
  {
    var m := ShiftCount(n);
    Pow2Is64();
    if m == 0 then
      a
    else if m > 64 then
      ShrAbove(a, m);
      U128(0, Shr(a.hi, m - 64))
    else if m < 64 then
      ShrBelow(a, m);
      U128(Shr(a.hi, m), Or(Shr(a.lo, m), Shl(a.hi, 64 - m, 64)))
    else
      DivModUnique(Val(a), B64, a.hi, a.lo);
      U128(0, a.hi)
  }

  lemma ShrAbove(a: U128, m: nat)
    requires 64 < m < 128
    ensures Shr(a.hi, m - 64) < B64 && Shr(a.hi, m - 64) == Val(a) / Pow2(m)
  {
    Pow2Is64();
    Pow2Add(64, m - 64);
    DivModUnique(Val(a), B64, a.hi, a.lo);
    DivDiv(Val(a), B64, Pow2(m - 64));
    DivAnti(a.hi, 1, Pow2(m - 64));
  }

  lemma ShrBelow(a: U128, m: nat)
    requires 0 < m < 64
    ensures Shr(a.hi, m) < B64
    ensures Or(Shr(a.lo, m), Shl(a.hi, 64 - m, 64)) < B64
    ensures Shr(a.hi, m) * B64 + Or(Shr(a.lo, m), Shl(a.hi, 64 - m, 64)) == Val(a) / Pow2(m)
  {
    var p, big := Pow2(m), Pow2(64 - m);
    ShrBelowLimbs(a, m);
    ShrAlgebra(a.hi, a.lo, p, big, B64);
    DivModUnique(a.hi * B64 + a.lo, p, (a.hi / p) * B64 + ((a.hi % p) * big + a.lo / p), a.lo % p);
  }

  /** The limbs shr_u128 computes for a shift below 64, in arithmetic terms. */
  lemma ShrBelowLimbs(a: U128, m: nat)
    requires 0 < m < 64
    ensures Pow2(64 - m) * Pow2(m) == B64
    ensures Shr(a.hi, m) == a.hi / Pow2(m) <= a.hi
    ensures Or(Shr(a.lo, m), Shl(a.hi, 64 - m, 64)) == (a.hi % Pow2(m)) * Pow2(64 - m) + a.lo / Pow2(m)
  {
    Pow2Is64();
    Pow2Add(64 - m, m);
    ShrJoin(a.hi, a.lo, m, 64 - m, 64);
  }

  /** The two halves of a right shift across a limb boundary on `w`-bit limbs. */
  lemma ShrJoin(h: nat, l: nat, m: nat, k: nat, w: nat)
    requires w == m + k && l < Pow2(w)
    ensures Shr(h, m) == h / Pow2(m) <= h
    ensures Or(Shr(l, m), Shl(h, k, w)) == (h % Pow2(m)) * Pow2(k) + l / Pow2(m)
  {
    ShrParts(h, l, m, k, w);
    OrDisjoint(h % Pow2(m), l / Pow2(m), k);
    OrComm(Shr(l, m), Shl(h, k, w));
  }

  lemma ShrParts(h: nat, l: nat, m: nat, k: nat, w: nat)
    requires w == m + k && l < Pow2(w)
    ensures Shr(h, m) == h / Pow2(m) <= h
    ensures Shl(h, k, w) == (h % Pow2(m)) * Pow2(k)
    ensures Shr(l, m) == l / Pow2(m) < Pow2(k)
  {
    var p, big := Pow2(m), Pow2(k);
    assert l / p < big by {
      Pow2Add(m, k);
      DivBelow(l, p, big);
    }
    ShlValue(h, k, w);
    DivAnti(h, 1, p);
  }

  lemma ShrAlgebra(h: nat, l: nat, p: nat, big: nat, w: nat)
    requires p > 0 && big > 0 && w == big * p && l < w
    ensures h * w + l == ((h / p) * w + ((h % p) * big + l / p)) * p + l % p
    ensures l / p < big && (h % p) * big + l / p < w && l % p < p
  {
    var h1, h0 := h / p, h % p;
    var l1, l0 := l / p, l % p;
    assert h == h1 * p + h0;
    assert l == l1 * p + l0;
    assert h * w == h1 * w * p + h0 * big * p;
    DivBelow(l, p, big);
    MulLe(h0, p - 1, big);
    assert (p - 1) * big == w - big;
  }

  /** inc_u128, portable path: the low limb wraps and carries into the high one. */
  function Inc(a: U128): (r: U128)
    ensures Val(r) == (Val(a) + 1) % B128
  {
    var lo := (a.lo + 1) % B64;
    var r := U128(if lo == 0 then (a.hi + 1) % B64 else a.hi, lo);
    IncCarry(a, r);
    r
  }

  lemma IncCarry(a: U128, r: U128)
    requires r.lo == (a.lo + 1) % B64
    requires r.hi == if r.lo == 0 then (a.hi + 1) % B64 else a.hi
    ensures Val(r) == (Val(a) + 1) % B128
  {
    if a.lo + 1 < B64 {
      DivModUnique(a.lo + 1, B64, 0, a.lo + 1);
      ValBound(a);
      DivModUnique(Val(a) + 1, B128, 0, Val(a) + 1);
    } else if a.hi + 1 < B64 {
      DivModUnique(Val(a) + 1, B128, 0, Val(a) + 1);
    } else {
      DivModUnique(Val(a) + 1, B128, 1, 0);
    }
  }

  /** dec_u128, portable path: the low limb wraps and borrows from the high one. */
  function Dec(a: U128): (r: U128)
    ensures Val(r) == (Val(a) - 1) % B128
  {
    var r := U128(if a.lo == 0 then (a.hi - 1) % B64 else a.hi, (a.lo - 1) % B64);
    DecBorrow(a, r);
    r
  }

  lemma DecBorrow(a: U128, r: U128)
    requires r.lo == (a.lo - 1) % B64
    requires r.hi == if a.lo == 0 then (a.hi - 1) % B64 else a.hi
    ensures Val(r) == (Val(a) - 1) % B128
  {
    if a.lo > 0 {
      ValBound(a);
      DivModUnique(Val(a) - 1, B128, 0, Val(a) - 1);
    } else if a.hi > 0 {
      DivModUnique(Val(a) - 1, B128, 0, Val(a) - 1);
    } else {
      DivModUnique(-1, B128, -1, B128 - 1);
    }
  }

  /** The native inc_u128 of binutils.h, which decrements. */
  function NativeInc(a: U128): (r: U128)
    ensures Val(r) == (Val(a) - 1) % B128
  {
    ValBound(a);
    Of((Val(a) - 1) % B128)
  }

  /** The native dec_u128 of binutils.h, which increments. */
  function NativeDec(a: U128): (r: U128)
    ensures Val(r) == (Val(a) + 1) % B128
  {
    Of((Val(a) + 1) % B128)
  }

  /** The two builds of binutils.h disagree on every input: the native
      increment is the portable decrement and the other way round. */
  lemma NativeIncDecSwapped(a: U128)
    ensures NativeInc(a) == Dec(a) && NativeDec(a) == Inc(a)
    ensures NativeInc(a) != Inc(a) && NativeDec(a) != Dec(a)
  {
    ValInjective(NativeInc(a), Dec(a));
    ValInjective(NativeDec(a), Inc(a));
    ValBound(a);
    if Val(NativeInc(a)) == Val(Inc(a)) {
      ModDiffTwo(Val(a));
    }
  }

  lemma ModDiffTwo(x: nat)
    requires x < B128
    ensures (x - 1) % B128 != (x + 1) % B128
  {
    if x == 0 {
      DivModUnique(-1, B128, -1, B128 - 1);
      DivModUnique(1, B128, 0, 1);
    } else if x == B128 - 1 {
      DivModUnique(x - 1, B128, 0, x - 1);
      DivModUnique(x + 1, B128, 1, 0);
    } else {
      DivModUnique(x - 1, B128, 0, x - 1);
      DivModUnique(x + 1, B128, 0, x + 1);
    }
  }

  /** add_u128: a carry is detected by the new low limb falling below the old one. */
  function Add(a: U128, b: U128): (r: U128)
    ensures Val(r) == (Val(a) + Val(b)) % B128
  {
    var lo := (a.lo + b.lo) % B64;
    var carry := if lo < a.lo then 1 else 0;
    var r := U128((a.hi + (b.hi + carry) % B64) % B64, lo);
    AddCarry(a, b, carry);
    r
  }

  lemma AddCarry(a: U128, b: U128, carry: nat)
    requires carry == if (a.lo + b.lo) % B64 < a.lo then 1 else 0
    ensures (a.hi + (b.hi + carry) % B64) % B64 * B64 + (a.lo + b.lo) % B64 == (Val(a) + Val(b)) % B128
  {
    var s := a.lo + b.lo;
    if s < B64 {
      DivModUnique(s, B64, 0, s);
    } else {
      DivModUnique(s, B64, 1, s - B64);
    }
    assert carry == s / B64;
    var h := a.hi + b.hi + carry;
    assert (a.hi + (b.hi + carry) % B64) % B64 == h % B64 by {
      DivModUnique(b.hi + carry, B64, (b.hi + carry) / B64, (b.hi + carry) % B64);
      DivModUnique(h, B64, (b.hi + carry) / B64 + (a.hi + (b.hi + carry) % B64) / B64,
                   (a.hi + (b.hi + carry) % B64) % B64);
    }
    assert Val(a) + Val(b) == h * B64 + s % B64;
    DivModUnique(h, B64, h / B64, h % B64);
    MulLe(h % B64, B64 - 1, B64);
    DivModUnique(Val(a) + Val(b), B128, h / B64, (h % B64) * B64 + s % B64);
  }

  /** sub_u128: a borrow is detected by the new low limb rising above the old one. */
  function Sub(a: U128, b: U128): (r: U128)
    ensures Val(r) == (Val(a) - Val(b)) % B128
  {
    var lo := (a.lo - b.lo) % B64;
    var borrow := if lo > a.lo then 1 else 0;
    var r := U128((a.hi - (b.hi + borrow) % B64) % B64, lo);
    SubBorrow(a, b, borrow);
    r
  }

  lemma SubBorrow(a: U128, b: U128, borrow: nat)
    requires borrow == if (a.lo - b.lo) % B64 > a.lo then 1 else 0
    ensures (a.hi - (b.hi + borrow) % B64) % B64 * B64 + (a.lo - b.lo) % B64 == (Val(a) - Val(b)) % B128
  {
    var d := a.lo - b.lo;
    if d >= 0 {
      DivModUnique(d, B64, 0, d);
    } else {
      DivModUnique(d, B64, -1, d + B64);
    }
    assert borrow == if d < 0 then 1 else 0;
    var h := a.hi - b.hi - borrow;
    assert (a.hi - (b.hi + borrow) % B64) % B64 == h % B64 by {
      DivModUnique(b.hi + borrow, B64, (b.hi + borrow) / B64, (b.hi + borrow) % B64);
      DivModUnique(h, B64, (a.hi - (b.hi + borrow) % B64) / B64 - (b.hi + borrow) / B64,
                   (a.hi - (b.hi + borrow) % B64) % B64);
    }
    assert Val(a) - Val(b) == h * B64 + d % B64;
    DivModUnique(h, B64, h / B64, h % B64);
    MulLe(h % B64, B64 - 1, B64);
    DivModUnique(Val(a) - Val(b), B128, h / B64, (h % B64) * B64 + d % B64);
  }
}
