/**
 * Words as bytes in memory.  The source reinterprets integers as byte
 * arrays through unions and pointer casts; on the little-endian machines
 * the model assumes, the byte at the lowest address is the least
 * significant one.  utils.h SwapInt16/32/64 reverse that order.
 */
module Bytes {
  import opened Arith

  /** Little-endian bytes of a word of `n` bytes (higher bits are cut off,
      as a store into an `n`-byte word does). */
  function LE(x: nat, n: nat): (r: seq<U8>)
    ensures |r| == n
  {
    if n == 0 then [] else [x % B8] + LE(x / B8, n - 1)
  }

  /** The word whose little-endian bytes are `b`. */
  function FromLE(b: seq<U8>): (r: nat)
    ensures r < Pow2(8 * |b|)
  {
    if |b| == 0 then 0
    else
      var m := 8 * (|b| - 1);
      var y := FromLE(b[1..]);
      Pow2Add(8, m);
      assert Pow2(8) == B8;
      DigitBound(b[0], y, Pow2(m));
      b[0] + B8 * y
  }

  /** A byte below a word of the next bytes stays below the shifted bound. */
  lemma DigitBound(c: U8, y: nat, q: nat)
    requires y < q
    ensures c + B8 * y < B8 * q
  {
    MulLe(y, q - 1, B8);
  }

  /** A word that fits reads back from its bytes. */
  lemma {:induction false} LERoundTrip(x: nat, n: nat)
    requires x < Pow2(8 * n)
    ensures FromLE(LE(x, n)) == x
  {
    if n > 0 {
      Pow2Add(8, 8 * (n - 1));
      assert Pow2(8) == B8;
      DivBelow(x, B8, Pow2(8 * (n - 1)));
      LERoundTrip(x / B8, n - 1);
      assert LE(x, n)[1..] == LE(x / B8, n - 1);
    }
  }

  /** Bytes read as a word and stored again are the same bytes. */
  lemma {:induction false} FromLERoundTrip(b: seq<U8>)
    ensures LE(FromLE(b), |b|) == b
  {
    if |b| > 0 {
      var x := FromLE(b);
      DivModUnique(x, B8, FromLE(b[1..]), b[0]);
      FromLERoundTrip(b[1..]);
      assert LE(x, |b|) == [b[0]] + LE(FromLE(b[1..]), |b| - 1);
    }
  }

  function Reverse(b: seq<U8>): (r: seq<U8>)
    ensures |r| == |b|
    ensures forall i :: 0 <= i < |b| ==> r[i] == b[|b| - 1 - i]
  {
    if |b| == 0 then [] else Reverse(b[1..]) + [b[0]]
  }

  lemma ReverseTwice(b: seq<U8>)
    ensures Reverse(Reverse(b)) == b
  {
  }

  /** utils.h SwapInt16/32/64 (portable path): the word's `n` bytes in the
      opposite order. */
  function Swap(x: nat, n: nat): (r: nat)
    requires x < Pow2(8 * n)
    ensures r < Pow2(8 * n)
    ensures LE(r, n) == Reverse(LE(x, n))
  {
    var r := FromLE(Reverse(LE(x, n)));
    FromLERoundTrip(Reverse(LE(x, n)));
    r
  }

  /** Swapping twice restores the word. */
  lemma SwapInvolution(x: nat, n: nat)
    requires x < Pow2(8 * n)
    ensures Swap(Swap(x, n), n) == x
  {
    var y := Swap(x, n);
    ReverseTwice(LE(x, n));
    FromLERoundTrip(Reverse(LE(y, n)));
    LERoundTrip(x, n);
  }

  /** utils.h SwapInt16, SwapInt32 and SwapInt64: byte reversal of a 16-,
      32- or 64-bit word. */
  function SwapInt16(x: U16): (r: U16)
    ensures LE(r, 2) == Reverse(LE(x, 2))
  {
    Pow2Is16();
    Swap(x, 2)
  }

  function SwapInt32(x: U32): (r: U32)
    ensures LE(r, 4) == Reverse(LE(x, 4))
  {
    Pow2Is32();
    Swap(x, 4)
  }

  function SwapInt64(x: U64): (r: U64)
    ensures LE(r, 8) == Reverse(LE(x, 8))
  {
    Pow2Is64();
    Swap(x, 8)
  }

  /** Each fixed-width swap is its own inverse. */
  lemma SwapIntInvolutions(a: U16, b: U32, c: U64)
    ensures SwapInt16(SwapInt16(a)) == a
    ensures SwapInt32(SwapInt32(b)) == b
    ensures SwapInt64(SwapInt64(c)) == c
  {
    Pow2Is16();
    Pow2Is32();
    Pow2Is64();
    SwapInvolution(a, 2);
    SwapInvolution(b, 4);
    SwapInvolution(c, 8);
  }
}
