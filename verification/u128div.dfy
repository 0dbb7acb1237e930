/**
 * Division in the portable 128-bit arithmetic of uint128t.c: div_u128_64,
 * Knuth's algorithm D for a 128-bit dividend and a 64-bit divisor with
 * 32-bit digits, and divrem_u128, which reduces 128-by-128 division to it.
 */
module UInt128Div {
  import opened Arith
  import opened UInt128
  import opened UInt128Arith

  // ---------------------------------------------------------------------
  // One quotient digit

  /**
   * The loop at the labels again1 and again2 of div_u128_64.  `qhat` is the
   * estimate of the next quotient digit and `rhat` the remainder that goes
   * with it; the estimate is lowered while it is not a digit or is too
   * large for the next dividend digit `un`, as long as `rhat` stays a digit.
   */
  function Refine(qhat: nat, rhat: nat, vn1: nat, vn0: nat, un: nat): (q: nat)
    ensures q <= qhat
    decreases qhat
  {
    if qhat >= B32 || qhat * vn0 > B32 * rhat + un then
      if rhat + vn1 < B32 then Refine(qhat - 1, rhat + vn1, vn1, vn0, un)
      else qhat - 1
    else qhat
  }

  /** The divisor of a digit step: two digits with the top bit set. */
  predicate NormalDivisor(vn1: nat, vn0: nat) {
    B32 / 2 <= vn1 < B32 && vn0 < B32
  }

  /** `q` is the quotient of `d` by `v` exactly when q*v <= d < (q+1)*v. */
  lemma QuotientBounds(d: nat, v: nat, q: nat)
    requires v > 0
    ensures q * v <= d ==> q <= d / v
    ensures q * v > d ==> d / v < q
  {
    assert d == (d / v) * v + d % v;
    if q > d / v {
      MulLe(d / v + 1, q, v);
    }
    if q <= d / v {
      MulLe(q, d / v, v);
    }
  }

  /**
   * Knuth's refinement finds the digit: started from an estimate that is
   * at least the true digit and at most two above base - 1, with `rhat`
   * the matching remainder of the top dividend digits `x`, it stops on
   * the quotient of x*b + un by the two-digit divisor.
   */
  lemma {:induction false} RefineCorrect(qhat: nat, rhat: nat, vn1: nat, vn0: nat, un: nat, x: nat)
    requires NormalDivisor(vn1, vn0) && un < B32
    requires x == qhat * vn1 + rhat && rhat < B32 && x < vn1 * B32 + vn0
    requires (x * B32 + un) / (vn1 * B32 + vn0) <= qhat <= B32 + 1
    ensures Refine(qhat, rhat, vn1, vn0, un) == (x * B32 + un) / (vn1 * B32 + vn0)
    decreases qhat
  {
    var v, d := vn1 * B32 + vn0, x * B32 + un;
    if qhat >= B32 || qhat * vn0 > B32 * rhat + un {
      assert d / v < qhat by {
        if qhat < B32 {
          TestMeans(x, un, vn1, vn0, qhat, rhat);
          QuotientBounds(d, v, qhat);
        } else {
          DigitBound(x, un, v);
        }
      }
      StepBack(x, qhat, rhat, vn1);
      if rhat + vn1 < B32 {
        RefineCorrect(qhat - 1, rhat + vn1, vn1, vn0, un, x);
      } else {
        LastStepFits(x, un, vn1, vn0, qhat - 1, rhat + vn1);
        QuotientBounds(d, v, qhat - 1);
      }
    } else {
      TestMeans(x, un, vn1, vn0, qhat, rhat);
      QuotientBounds(d, v, qhat);
    }
  }

  /** The test of the loop compares the estimate times the whole divisor
      with the dividend, one digit at a time. */
  lemma TestMeans(x: nat, un: nat, vn1: nat, vn0: nat, qhat: nat, rhat: nat)
    requires x == qhat * vn1 + rhat
    ensures qhat * vn0 > B32 * rhat + un <==> qhat * (vn1 * B32 + vn0) > x * B32 + un
  {
    assert qhat * (vn1 * B32 + vn0) == (qhat * vn1) * B32 + qhat * vn0;
    assert x * B32 == (qhat * vn1) * B32 + rhat * B32;
  }

  /** Lowering the estimate by one and raising the remainder by the top
      divisor digit keeps the division equation. */
  lemma StepBack(x: nat, qhat: nat, rhat: nat, vn1: nat)
    requires x == qhat * vn1 + rhat && qhat > 0
    ensures x == (qhat - 1) * vn1 + (rhat + vn1)
  {
  }

  /** The true digit is below b when the top dividend digits are below
      the divisor. */
  lemma DigitBound(x: nat, un: nat, v: nat)
    requires un < B32 && x < v
    ensures (x * B32 + un) / v < B32
  {
    MulLe(x + 1, v, B32);
    DivBelow(x * B32 + un, v, B32);
  }

  /** When the remainder leaves the digit range, the lowered estimate is
      small enough. */
  lemma LastStepFits(x: nat, un: nat, vn1: nat, vn0: nat, q: nat, rhat: nat)
    requires NormalDivisor(vn1, vn0) && un < B32
    requires x == q * vn1 + rhat && rhat >= B32 && q <= B32
    ensures q * (vn1 * B32 + vn0) <= x * B32 + un
  {
    MulLe(q, B32, vn0);
    MulLe(vn0, B32, B32);
    assert q * (vn1 * B32 + vn0) == (x - rhat) * B32 + q * vn0;
    MulLe(B32, rhat, B32);
  }

  /** A normalized two-digit divisor is at least b. */
  lemma DivisorSize(vn1: nat, vn0: nat)
    requires NormalDivisor(vn1, vn0)
    ensures vn1 * B32 + vn0 >= B32 && vn1 > 0
  {
    MulGe(vn1, B32);
  }

  /**
   * One digit of div_u128_64: the estimate x / vn1 with remainder x % vn1
   * (the source's `un32/vn1` and `un32 - q1*vn1`, or `un21/vn1` and
   * `un21 - q0*vn1`), refined.
   */
  function Digit(x: nat, un: nat, vn1: nat, vn0: nat): nat
    requires NormalDivisor(vn1, vn0)
  {
    DivNat(x, vn1);
    Refine(x / vn1, x % vn1, vn1, vn0, un)
  }

  /** The refined digit is the quotient digit of x*b + un by the
      normalized divisor, when the top digits are below the divisor. */
  lemma DigitStep(x: nat, un: nat, vn1: nat, vn0: nat)
    requires NormalDivisor(vn1, vn0) && un < B32 && x < vn1 * B32 + vn0
    ensures vn1 * B32 + vn0 > 0
    ensures Digit(x, un, vn1, vn0) == (x * B32 + un) / (vn1 * B32 + vn0) < B32
  {
    DivisorSize(vn1, vn0);
    DivNat(x, vn1);
    EstimateBounds(x, un, vn1, vn0);
    RefineCorrect(x / vn1, x % vn1, vn1, vn0, un, x);
    DigitBound(x, un, vn1 * B32 + vn0);
  }

  /** The first estimate is at least the digit and at most b + 1. */
  lemma EstimateBounds(x: nat, un: nat, vn1: nat, vn0: nat)
    requires NormalDivisor(vn1, vn0) && un < B32 && x < vn1 * B32 + vn0
    ensures vn1 > 0 && vn1 * B32 + vn0 > 0
    ensures x == (x / vn1) * vn1 + x % vn1 && x % vn1 < B32
    ensures (x * B32 + un) / (vn1 * B32 + vn0) <= x / vn1 <= B32 + 1
  {
    DivisorSize(vn1, vn0);
    EstimateTop(x, vn1, vn0);
    EstimateAbove(x, un, vn1, vn0, vn1 * B32 + vn0, x * B32 + un);
  }

  /** The estimate from the top digits is at most b + 1. */
  lemma EstimateTop(x: nat, vn1: nat, vn0: nat)
    requires NormalDivisor(vn1, vn0) && x < vn1 * B32 + vn0
    ensures vn1 > 0 && x / vn1 <= B32 + 1
  {
    assert vn1 * (B32 + 2) == vn1 * B32 + 2 * vn1;
    DivBelow(x, vn1, B32 + 2);
  }

  /** The estimate from the top digits is at least the digit. */
  lemma EstimateAbove(x: nat, un: nat, vn1: nat, vn0: nat, v: nat, d: nat)
    requires v == vn1 * B32 + vn0 && vn1 > 0 && v > 0 && d == x * B32 + un && un < B32
    ensures d / v <= x / vn1
  {
    var q := d / v;
    EstimateBelow(x, un, vn1, vn0, v, d, q);
    QuotientBounds(x, vn1, q);
  }

  /** The digit times the top divisor digit fits in the top dividend digits. */
  lemma EstimateBelow(x: nat, un: nat, vn1: nat, vn0: nat, v: nat, d: nat, q: nat)
    requires v == vn1 * B32 + vn0 && v > 0 && d == x * B32 + un && un < B32 && q == d / v
    ensures q * vn1 <= x
  {
    assert q * v <= d by {
      assert d == q * v + d % v;
    }
    assert q * v == (q * vn1) * B32 + q * vn0;
    if q * vn1 > x {
      MulLe(x + 1, q * vn1, B32);
    }
  }

  // ---------------------------------------------------------------------
  // div_u128_64

  /**
   * div_u128_64: the quotient and remainder of a 128-bit dividend by a
   * 64-bit divisor.  When the divisor is zero or the quotient would not
   * fit in 64 bits, both results are all ones.
   */
  function DivU128By64(u: U128, v: U64): (r: (U64, U64))
    ensures v == 0 || u.hi >= v ==> r == (Max64, Max64)
    ensures v != 0 && u.hi < v ==> r.0 == Val(u) / v && r.1 == Val(u) % v
  {
    if v == 0 || u.hi >= v then (Max64, Max64)
    else
      var (s, vs) := ShiftedDivisor(v);
      var (un32, un10) := ShiftedDividend(u, s);
      var (q1, un21) := QuotientDigit(un32, Hi32(un10), vs);
      var (q0, rem) := QuotientDigit(un21, Lo32(un10), vs);
      DivSteps(u, v, s, vs, un32, un10, q1, un21, q0, rem);
      ((q1 * B32 + q0) % B64, Shr(rem, s))
  }

  /**
   * One digit step of div_u128_64 on the normalized divisor `vs`: the
   * refined digit and the next dividend digits `x*b + un - q*vs`, as
   * uint64.  From top digits below the divisor it yields the quotient
   * digit and the remainder.
   */
  function QuotientDigit(x: U64, un: U32, vs: U64): (p: (nat, U64))
    requires NormalDivisor(Hi32(vs), Lo32(vs))
    ensures x < vs ==> p.0 == (x * B32 + un) / vs < B32 && p.1 == (x * B32 + un) % vs < vs
  {
    var q := Digit(x, un, Hi32(vs), Lo32(vs));
    if x < vs then
      DigitStep(x, un, Hi32(vs), Lo32(vs));
      RemainderWord(x * B32 + un, vs, q);
      (q, (x * B32 + un - q * vs) % B64)
    else
      (q, (x * B32 + un - q * vs) % B64)
  }

  /** `v <<= normalize(v)`: the divisor shifted until its top bit is set,
      with the shift. */
  function ShiftedDivisor(v: U64): (p: (nat, U64))
    requires v != 0
    ensures p.0 < 64 && p.1 == v * Pow2(p.0) && Pow2(63) <= p.1
    ensures NormalDivisor(Hi32(p.1), Lo32(p.1))
  {
    var s := Normalize(v);
    NormalShift(v, s);
    (s, Shl(v, s, 64))
  }

  lemma NormalShift(v: nat, s: nat)
    requires s < 64 && Pow2(63) <= v * Pow2(s) < B64
    ensures Shl(v, s, 64) == v * Pow2(s)
    ensures NormalDivisor((v * Pow2(s)) / B32, (v * Pow2(s)) % B32)
  {
    Pow2Is64();
    Pow2Add(64 - s, s);
    if v >= Pow2(64 - s) {
      MulLe(Pow2(64 - s), v, Pow2(s));
    }
    ShlExact(v, s, 64);
    var x := v * Pow2(s);
    Pow2Is63();
    DivMono(Pow2(63), x, B32);
    DivModUnique(Pow2(63), B32, B32 / 2, 0);
    DivBelow(x, B32, B32);
  }

  /** `un32` and `un10`: the dividend shifted left by `s` as two words.
      For s = 0 the source masks away the shift by 64 of the low word. */
  function ShiftedDividend(u: U128, s: nat): (p: (U64, U64))
    requires s < 64
    ensures p.0 * B64 + p.1 == (Val(u) * Pow2(s)) % B128
  {
    Pow2Is64();
    if s == 0 then
      ShlZero(u);
      ShlExact(u.lo, 0, 64);
      (u.hi, Shl(u.lo, s, 64))
    else
      ShlBelow(u, s);
      (Or(Shl(u.hi, s, 64), Shr(u.lo, 64 - s)), Shl(u.lo, s, 64))
  }

  /** The two digit steps of div_u128_64 compute the quotient and the
      shifted remainder. */
  lemma DivSteps(u: U128, v: U64, s: nat, vs: U64, un32: U64, un10: U64, q1: nat, un21: U64, q0: nat, rem: U64)
    requires v != 0 && u.hi < v && vs == v * Pow2(s) && NormalDivisor(Hi32(vs), Lo32(vs))
    requires un32 * B64 + un10 == (Val(u) * Pow2(s)) % B128
    requires (q1, un21) == QuotientDigit(un32, Hi32(un10), vs)
    requires (q0, rem) == QuotientDigit(un21, Lo32(un10), vs)
    ensures (q1 * B32 + q0) % B64 == Val(u) / v
    ensures Shr(rem, s) == Val(u) % v
  {
    DividendShifted(u, v, s, vs, un32, un10);
    TwoDigits(Val(u) * Pow2(s), vs, un32, Hi32(un10), Lo32(un10), q1, un21, q0, rem);
    Unshifted(Val(u), v, s, q1 * B32 + q0, rem);
  }

  /** The shifted dividend does not wrap, and its top word is below the
      shifted divisor. */
  lemma DividendShifted(u: U128, v: U64, s: nat, vs: nat, un32: U64, un10: U64)
    requires v != 0 && u.hi < v && vs == v * Pow2(s) && vs < B64
    requires un32 * B64 + un10 == (Val(u) * Pow2(s)) % B128
    ensures un32 * B64 + un10 == Val(u) * Pow2(s)
    ensures un32 < vs && un10 == Hi32(un10) * B32 + Lo32(un10)
  {
    assert Val(u) < v * B64 by {
      MulLe(u.hi + 1, v, B64);
    }
    ScaledBelow(Val(u), v, Pow2(s), vs);
    TopWord(Val(u) * Pow2(s), vs, un32, un10);
  }

  lemma ScaledBelow(n: nat, v: nat, p: nat, vs: nat)
    requires n < v * B64 && vs == v * p && vs < B64 && p > 0
    ensures n * p < vs * B64 && n * p < B128
  {
    MulLt(n, v * B64, p);
    assert (v * B64) * p == vs * B64;
    MulLe(vs, B64, B64);
  }

  lemma TopWord(x: nat, vs: nat, hi: nat, lo: nat)
    requires x < vs * B64 && x < B128 && lo < B64 && hi * B64 + lo == x % B128
    ensures hi * B64 + lo == x && hi < vs
  {
    DivModUnique(x, B128, 0, x);
    if hi >= vs {
      MulLe(vs, hi, B64);
    }
  }

  /** The uint64 subtraction that forms the next dividend digits cannot
      wrap: it is the remainder of the digit step. */
  lemma RemainderWord(d: int, vs: nat, q: nat)
    requires 0 < vs < B64 && d >= 0 && q == d / vs
    ensures (d - q * vs) % B64 == d % vs < vs
  {
    assert d == q * vs + d % vs;
    DivModUnique(d - q * vs, B64, 0, d % vs);
  }

  /** Two quotient digits and the last remainder give the division of the
      four-digit dividend. */
  lemma TwoDigits(x: nat, vs: nat, un32: nat, un1: nat, un0: nat, q1: nat, un21: nat, q0: nat, rem: nat)
    requires vs > 0 && x == un32 * B64 + un1 * B32 + un0
    requires un21 == (un32 * B32 + un1) % vs && q1 == (un32 * B32 + un1) / vs
    requires rem == (un21 * B32 + un0) % vs && q0 == (un21 * B32 + un0) / vs
    ensures x / vs == q1 * B32 + q0 && x % vs == rem
  {
    assert un32 * B32 + un1 == q1 * vs + un21;
    assert un21 * B32 + un0 == q0 * vs + rem;
    assert x == (un32 * B32 + un1) * B32 + un0;
    assert x == (q1 * B32 + q0) * vs + rem;
    DivModUnique(x, vs, q1 * B32 + q0, rem);
  }

  /** Undoing the normalization: the quotient of the shifted values is the
      quotient, and their remainder shifted back is the remainder. */
  lemma Unshifted(n: nat, v: nat, s: nat, q: nat, rem: nat)
    requires v > 0 && n < v * B64
    requires q == (n * Pow2(s)) / (v * Pow2(s)) && rem == (n * Pow2(s)) % (v * Pow2(s))
    ensures q % B64 == n / v && Shr(rem, s) == n % v
  {
    MulDivMod(n, Pow2(s), v);
    DivBelow(n, v, B64);
    DivModUnique(q, B64, 0, q);
    DivModUnique(rem, Pow2(s), n % v, 0);
  }

  // ---------------------------------------------------------------------
  // divrem_u128, div_u128, rem_u128

  /**
   * divrem_u128 as written.  Its correction step multiplies with mul_u128,
   * whose shortcut for a factor of 2^64 returns the wrong product; so the
   * result is the quotient and remainder except for the divisor 2^64.
   * A zero divisor is a division by zero in the source.
   */
  function DivRem(a: U128, b: U128): (r: (U128, U128))
    requires Val(b) != 0
    ensures Val(b) != B64 ==> Val(r.0) == Val(a) / Val(b) && Val(r.1) == Val(a) % Val(b)
  {
    if b.hi == 0 then DivRemShort(a, b.lo)
    else
      var q1 := Estimate(a, b);
      ProductFits(a, b, q1);
      Corrected(a, b, q1, Mul(q1, b))
  }

  /** divrem_u128 with the product taken by the corrected multiplication:
      always the quotient and the remainder. */
  function DivRemFixed(a: U128, b: U128): (r: (U128, U128))
    requires Val(b) != 0
    ensures Val(r.0) == Val(a) / Val(b) && Val(r.1) == Val(a) % Val(b)
  {
    if b.hi == 0 then DivRemShort(a, b.lo)
    else
      var q1 := Estimate(a, b);
      ProductFits(a, b, q1);
      Corrected(a, b, q1, MulFixed(q1, b))
  }

  /** The divisor 2^64 with the dividend 2^65: the remainder is 0, but
      divrem_u128 as written returns 2^64 minus the estimate. */
  lemma DivRemAsWrittenWrong()
    ensures Val(U128(2, 0)) % Val(U128(1, 0)) == 0
    ensures Val(DivRem(U128(2, 0), U128(1, 0)).1) != 0
  {
    var a, b := U128(2, 0), U128(1, 0);
    var q1 := Estimate(a, b);
    assert Val(a) == 2 * B64 && Val(b) == B64;
    DivModUnique(Val(a), Val(b), 2, 0);
    AsWrittenProduct(a, b);
    CorrectedFromTwo(a, b, q1);
  }

  /** With the divisor 2^64, mul_u128 returns the estimate itself as the
      product. */
  lemma AsWrittenProduct(a: U128, b: U128)
    requires b.hi != 0 && Val(b) == B64 && Val(Estimate(a, b)) != 0
    ensures DivRem(a, b) == Corrected(a, b, Estimate(a, b), Estimate(a, b))
  {
    ProductFits(a, b, Estimate(a, b));
  }

  lemma CorrectedFromTwo(a: U128, b: U128, q1: U128)
    requires Val(a) == 2 * B64 && Val(b) == B64 && 1 <= Val(q1) <= 2
    ensures Val(Corrected(a, b, q1, q1).1) == B64 - Val(q1)
  {
    var r1 := Sub(a, q1);
    DivModUnique(Val(a) - Val(q1), B128, 0, Val(a) - Val(q1));
    assert Ge(r1, b);
    DivModUnique(Val(r1) - Val(b), B128, 0, Val(r1) - Val(b));
  }

  /** div_u128 as written: the quotient part of divrem_u128, so it is the
      quotient except for the divisor 2^64. */
  function Div(a: U128, b: U128): (q: U128)
    requires Val(b) != 0
    ensures Val(b) != B64 ==> Val(q) == Val(a) / Val(b)
  {
    DivRem(a, b).0
  }

  /** rem_u128 as written: the remainder part of divrem_u128, so it is the
      remainder except for the divisor 2^64. */
  function Rem(a: U128, b: U128): (r: U128)
    requires Val(b) != 0
    ensures Val(b) != B64 ==> Val(r) == Val(a) % Val(b)
  {
    DivRem(a, b).1
  }

  /** div_u128 over the corrected divrem_u128: always the quotient. */
  function DivFixed(a: U128, b: U128): (q: U128)
    requires Val(b) != 0
    ensures Val(q) == Val(a) / Val(b)
  {
    DivRemFixed(a, b).0
  }

  /** rem_u128 over the corrected divrem_u128: always the remainder. */
  function RemFixed(a: U128, b: U128): (r: U128)
    requires Val(b) != 0
    ensures Val(r) == Val(a) % Val(b)
  {
    DivRemFixed(a, b).1
  }

  /** rem_u128(2^65, 2^64) as written is not 0; the corrected one is. */
  lemma RemAsWrittenWrong()
    ensures Val(Rem(U128(2, 0), U128(1, 0))) != 0
    ensures Val(RemFixed(U128(2, 0), U128(1, 0))) == 0
  {
    DivRemAsWrittenWrong();
  }

  /** The branch for a divisor below 2^64: one call of div_u128_64 when
      the high dividend word is below the divisor, otherwise the high word
      is divided first and its remainder carried into the call. */
  function DivRemShort(a: U128, b: U64): (r: (U128, U128))
    requires b != 0
    ensures Val(r.0) == Val(a) / b && Val(r.1) == Val(a) % b
  {
    if a.hi < b then
      var (q, rm) := DivU128By64(a, b);
      (U128(0, q), U128(0, rm))
    else
      HighWordDivided(a, b)
  }

  /** The high dividend word divided first; its remainder goes into the
      call of div_u128_64, which then cannot overflow. */
  function HighWordDivided(a: U128, b: U64): (r: (U128, U128))
    requires b != 0
    ensures Val(r.0) == Val(a) / b && Val(r.1) == Val(a) % b
  {
    DivNat(a.hi, b);
    var hq: U64, hr: U64 := a.hi / b, a.hi % b;
    HighWordCarried(a, b, hq, hr);
    var r := DivU128By64(U128(hr, a.lo), b);
    (U128(hq, r.0), U128(0, r.1))
  }

  lemma HighWordCarried(a: U128, b: U64, hq: U64, hr: U64)
    requires b != 0 && hq == a.hi / b && hr == a.hi % b
    ensures Val(U128(hq, DivU128By64(U128(hr, a.lo), b).0)) == Val(a) / b
    ensures Val(U128(0, DivU128By64(U128(hr, a.lo), b).1)) == Val(a) % b
  {
    var r := DivU128By64(U128(hr, a.lo), b);
    HighWordFirst(a.hi, a.lo, b, hq, hr, Val(U128(hr, a.lo)), Val(a), r.0, r.1);
  }

  lemma HighWordFirst(h: nat, l: nat, b: nat, hq: nat, hr: nat, x: nat, y: nat, q: nat, rm: nat)
    requires b > 0 && hq == h / b && hr == h % b
    requires x == hr * B64 + l && y == h * B64 + l
    requires q == x / b && rm == x % b
    ensures hq * B64 + q == y / b && rm == y % b
  {
    assert x == q * b + rm;
    assert h * B64 == hq * B64 * b + hr * B64 by {
      assert h == hq * b + hr;
    }
    assert y == (hq * B64 + q) * b + rm;
    DivModUnique(y, b, hq * B64 + q, rm);
  }

  /** The first quotient estimate of the wide branch: the dividend halved,
      divided by the top word of the normalized divisor, shifted back,
      and lowered by one unless zero.  It is the quotient or one less. */
  function Estimate(a: U128, b: U128): (q: U128)
    requires b.hi != 0
    ensures Val(q) <= Val(a) / Val(b) <= Val(q) + 1
  {
    var q1 := FirstEstimate(a, b);
    var q := Lowered(q1);
    ValWide(b);
    DivNat(Val(a), Val(b));
    LoweredRange(Val(a) / Val(b), Val(q1), Val(q));
    q
  }

  lemma LoweredRange(x: int, q1: nat, q: nat)
    requires 0 <= x <= q1 <= x + 1 && (q1 == 0 ==> q == q1) && (q1 != 0 ==> q == q1 - 1)
    ensures q <= x <= q + 1
  {
  }

  /** The estimate before lowering: the quotient or one more. */
  function FirstEstimate(a: U128, b: U128): (q1: U128)
    requires b.hi != 0
    ensures Val(a) / Val(b) <= Val(q1) <= Val(a) / Val(b) + 1
  {
    var n := Normalize(b.hi);
    var v1 := ShlU(b, n);
    var u1 := ShrU(a, 1);
    var q0 := DivU128By64(u1, v1.hi).0;
    var q1 := ShrU(U128(0, q0), 63 - n);
    EstimateCorrect(a, b, n, v1, u1, q0, q1);
    q1
  }

  /** `if (q1 != 0) dec_u128(&q1)`. */
  function Lowered(q1: U128): (q: U128)
    ensures Val(q1) == 0 ==> q == q1
    ensures Val(q1) != 0 ==> Val(q) == Val(q1) - 1
  {
    if q1.hi != 0 || q1.lo != 0 then
      DecNonzero(q1);
      Dec(q1)
    else
      q1
  }

  lemma DecNonzero(q: U128)
    requires q.hi != 0 || q.lo != 0
    ensures Val(q) >= 1 && Val(Dec(q)) == Val(q) - 1
  {
    ValBound(q);
    DivModUnique(Val(q) - 1, B128, 0, Val(q) - 1);
  }

  /** Before lowering, the estimate is the quotient or one more. */
  lemma EstimateCorrect(a: U128, b: U128, n: nat, v1: U128, u1: U128, q0: U64, q1: U128)
    requires b.hi != 0 && n == Normalize(b.hi)
    requires v1 == ShlU(b, n) && u1 == ShrU(a, 1)
    requires q0 == DivU128By64(u1, v1.hi).0 && q1 == ShrU(U128(0, q0), 63 - n)
    ensures Val(a) / Val(b) <= Val(q1) <= Val(a) / Val(b) + 1
  {
    WideDivisor(b, n, v1);
    HalfTop(a, u1);
    assert q0 == Val(u1) / v1.hi;
    ShiftedBack(q0, n, q1);
    ValBound(a);
    ShiftWidths(n);
    EstimateChain(Val(a), Val(b), v1.hi, Pow2(n), Pow2(64 - n), Pow2(63 - n), Val(u1), q0, Val(q1));
  }

  lemma ShiftedBack(q0: U64, n: nat, q1: U128)
    requires n < 64 && q1 == ShrU(U128(0, q0), 63 - n)
    ensures Val(q1) == q0 / Pow2(63 - n) && 2 * Pow2(63 - n) == Pow2(64 - n)
  {
    ModSmall(63 - n, 128);
    assert Val(U128(0, q0)) == q0;
  }

  /** Halving, dividing by the top word `d` and shifting right by 63 - n
      brackets the quotient. */
  lemma EstimateChain(x: nat, bv: nat, d: nat, p: nat, k: nat, h: nat, u: nat, q0: nat, q1: nat)
    requires k * p == B64 && (k == 2 || k >= 4) && 2 * h == k && B64 / 2 <= d && x < B128
    requires d * B64 <= bv * p < (d + 1) * B64
    requires u == x / 2 && q0 == u / d && q1 == q0 / h
    ensures x / bv <= q1 <= x / bv + 1
  {
    DivDiv(x, 2, d);
    DivDiv(x, 2 * d, h);
    assert 2 * d * h == d * k;
    EstimateRange(x, bv, d, p, k);
  }

  /** The two shifts of a normalization by n < 64 make up a word. */
  lemma ShiftWidths(n: nat)
    requires n < 64
    ensures Pow2(64 - n) * Pow2(n) == B64 && (Pow2(64 - n) == 2 || Pow2(64 - n) >= 4)
    ensures Pow2(n) <= B64 / 2 && n % 128 == n
  {
    Pow2Is64();
    Pow2Add(64 - n, n);
    Pow2Is63();
    Pow2Mono(n, 63);
    if n < 63 {
      Pow2Mono(2, 64 - n);
    }
  }

  /** The normalized divisor does not wrap; its top word is the divisor
      shifted and truncated, with the top bit set. */
  lemma WideDivisor(b: U128, n: nat, v1: U128)
    requires b.hi != 0 && n < 64 && Pow2(63) <= b.hi * Pow2(n) < B64
    requires Val(v1) == (Val(b) * Pow2(n % 128)) % B128
    ensures v1.hi * B64 <= Val(b) * Pow2(n) < (v1.hi + 1) * B64 && B64 / 2 <= v1.hi
  {
    ShiftWidths(n);
    Pow2Is63();
    WideArith(b.hi, b.lo, Pow2(n), Pow2(64 - n), v1.hi, v1.lo);
  }

  lemma WideArith(h: nat, l: nat, p: nat, k: nat, dh: nat, dl: nat)
    requires k * p == B64 && B64 / 2 <= h * p < B64 && l < B64 && dl < B64
    requires dh * B64 + dl == ((h * B64 + l) * p) % B128
    ensures dh * B64 <= (h * B64 + l) * p < (dh + 1) * B64 && B64 / 2 <= dh
  {
    var x := (h * B64 + l) * p;
    assert x < B128 by {
      if h >= k {
        MulLe(k, h, p);
      }
      MulLe(h + 1, k, B64);
      MulLt(h * B64 + l, k * B64, p);
      assert k * B64 * p == B64 * B64;
    }
    DivModUnique(x, B128, 0, x);
    assert x >= (B64 / 2) * B64 by {
      MulLe(h * B64, h * B64 + l, p);
      assert h * B64 * p == (h * p) * B64;
      MulLe(B64 / 2, h * p, B64);
    }
  }

  /** The dividend halved has its top word below the top bit. */
  lemma HalfTop(a: U128, u1: U128)
    requires Val(u1) == Val(a) / Pow2(1 % 128)
    ensures Val(u1) == Val(a) / 2 && u1.hi < B64 / 2
  {
    Pow2One();
    ValBound(a);
    DivBelow(Val(a), 2, (B64 / 2) * B64);
  }

  lemma Pow2One()
    ensures Pow2(1 % 128) == 2
  {
    ModSmall(1, 128);
  }

  /**
   * The estimate divides by e = d * k, the divisor with its bits below
   * k = 2^(64-n) cleared: e <= b < e + k, so x/b <= x/e, and because b is
   * at least 2^63 * k the quotient x/e exceeds x/b by at most one.
   */
  lemma EstimateRange(x: nat, b: nat, d: nat, p: nat, k: nat)
    requires k * p == B64 && (k == 2 || k >= 4) && B64 / 2 <= d && x < B128
    requires d * B64 <= b * p < (d + 1) * B64
    ensures b > 0 && d * k > 0
    ensures x / b <= x / (d * k) <= x / b + 1
  {
    TruncatedDivisor(b, d, p, k);
    Overestimate(x, b, d * k, p, k);
  }

  lemma Overestimate(x: nat, b: nat, e: nat, p: nat, k: nat)
    requires k * p == B64 && (k == 2 || k >= 4) && x < B128
    requires B64 <= e && (B64 / 2) * k <= e && e <= b < e + k
    ensures x / b <= x / e <= x / b + 1
  {
    DivAnti(x, e, b);
    var q := x / b;
    assert q + 1 <= 2 * p by {
      QuotientSmall(x, e, p, k);
    }
    Slack(q, b, e, p, k);
    assert x < (q + 2) * e by {
      assert x == q * b + x % b;
      assert (q + 1) * b == (q + 1) * e + (q + 1) * (b - e);
    }
    DivBelow(x, e, q + 2);
  }

  lemma TruncatedDivisor(b: nat, d: nat, p: nat, k: nat)
    requires k * p == B64 && k >= 2 && B64 / 2 <= d
    requires d * B64 <= b * p < (d + 1) * B64
    ensures d * k <= b < d * k + k && (B64 / 2) * k <= d * k && B64 <= d * k
  {
    assert d * B64 == (d * k) * p;
    if b < d * k {
      MulLt(b, d * k, p);
    }
    assert (d + 1) * B64 == (d * k + k) * p;
    if b >= d * k + k {
      MulLe(d * k + k, b, p);
    }
    MulLe(B64 / 2, d, k);
  }

  lemma QuotientSmall(x: nat, e: nat, p: nat, k: nat)
    requires k * p == B64 && (B64 / 2) * k <= e && x < B128
    ensures x / e < 2 * p
  {
    var m := (B64 / 2) * k;
    assert m * (2 * p) == B128 by {
      assert m * (2 * p) == (B64 / 2) * 2 * (k * p);
    }
    DivAnti(x, m, e);
    DivBelow(x, m, 2 * p);
  }

  lemma Slack(q: nat, b: nat, e: nat, p: nat, k: nat)
    requires k * p == B64 && (k == 2 || k >= 4) && q + 1 <= 2 * p
    requires e <= b < e + k && (B64 / 2) * k <= e
    ensures (q + 1) * (b - e) <= e
  {
    MulLe(q + 1, 2 * p, b - e);
    MulLe(b - e, k - 1, 2 * p);
    assert (k - 1) * (2 * p) == 2 * B64 - 2 * p;
    if k >= 4 {
      MulLe(4, k, B64 / 2);
    }
  }

  /** The correction step: one more divisor is taken off when the
      remainder is still at least the divisor. */
  function Corrected(a: U128, b: U128, q1: U128, p: U128): (r: (U128, U128))
    ensures Val(b) != 0 && Val(q1) <= Val(a) / Val(b) <= Val(q1) + 1 && Val(p) == Val(q1) * Val(b) ==>
              Val(r.0) == Val(a) / Val(b) && Val(r.1) == Val(a) % Val(b)
  {
    var r1 := Sub(a, p);
    var r := if Ge(r1, b) then (Inc(q1), Sub(r1, b)) else (q1, r1);
    if Val(b) != 0 && Val(q1) <= Val(a) / Val(b) <= Val(q1) + 1 && Val(p) == Val(q1) * Val(b) then
      ValBound(a);
      CorrectionStep(Val(a), Val(b), Val(q1), Val(p), Val(r1));
      r
    else
      r
  }

  lemma CorrectionStep(x: nat, d: nat, q: nat, p: nat, r: nat)
    requires 0 < d && x < B128 && q <= x / d <= q + 1 && p == q * d && r == (x - p) % B128
    ensures r == x - q * d
    ensures r >= d ==> q + 1 == x / d && r - d == x % d && (q + 1) % B128 == q + 1 && (r - d) % B128 == r - d
    ensures r < d ==> q == x / d && r == x % d
  {
    assert x == (x / d) * d + x % d;
    MulLe(q, x / d, d);
    DivModUnique(x - p, B128, 0, x - p);
    if q == x / d {
      assert r == x % d;
    } else {
      assert r == x % d + d;
      DivModUnique(r - d, B128, 0, r - d);
      DivModUnique(q + 1, B128, 0, q + 1);
    }
  }

  /** The product in the correction step does not wrap, and the estimate
      is below 2^64 because the divisor is at least 2^64. */
  lemma ProductFits(a: U128, b: U128, q1: U128)
    requires b.hi != 0 && Val(q1) <= Val(a) / Val(b)
    ensures Val(q1) < B64 && (Val(q1) * Val(b)) % B128 == Val(q1) * Val(b)
  {
    ValBound(a);
    MulGe(b.hi, B64);
    DivAnti(Val(a), B64, Val(b));
    DivBelow(Val(a), B64, B64);
    assert Val(a) == (Val(a) / Val(b)) * Val(b) + Val(a) % Val(b);
    MulLe(Val(q1), Val(a) / Val(b), Val(b));
    DivModUnique(Val(q1) * Val(b), B128, 0, Val(q1) * Val(b));
  }
}
