/**
 * Percent-encoding as utils.c uriEncode and uriDecode do it (section 2.1
 * of RFC 3986): the unreserved characters of section 2.3 of RFC 3986,
 * together with '/' and ':', are kept, every other byte becomes '%' and two
 * capital hex digits; decoding takes digits of either case and leaves a
 * '%' that is not followed by two hex digits as it is.  Both stop at the
 * string's NUL; the model's strings end there or at the end of the bytes.
 */
module Uri {
  import opened Arith
  import opened Hex
  import opened Opt

  /** The bytes uriEncode copies unchanged: `[0-9A-Za-z/:-_.~]`. */
  predicate Kept(c: U8) {
    '0' as int <= c <= '9' as int || 'A' as int <= c <= 'Z' as int ||
    'a' as int <= c <= 'z' as int || c == '/' as int || c == ':' as int ||
    c == '-' as int || c == '_' as int || c == '.' as int || c == '~' as int
  }

  const Percent: U8 := '%' as int

  /** The byte as the source's plain `char`, taken as signed, as on x86-64
      and Apple arm64 (the signedness of `char` is left to the compiler). */
  function Signed(c: U8): int {
    if c >= 128 then c - 256 else c
  }

  /** `(c >> 4) & 0xF` and `c & 0xF` on the signed char: the shift is
      arithmetic (a floor division) and the mask keeps the value modulo 16
      in two's complement, so the sign does not show. */
  lemma SignedNibbles(c: U8)
    ensures (Signed(c) / 16) % 16 == c / 16
    ensures Signed(c) % 16 == c % 16
  {
    if c >= 128 {
      DivModUnique(c - 256, 16, c / 16 - 16, c % 16);
      DivModUnique(c / 16 - 16, 16, -1, c / 16);
    } else {
      DivModUnique(c / 16, 16, 0, c / 16);
    }
  }

  /** utils.c uriEncode: the bytes before the NUL, each kept or escaped. */
  function UriEncode(s: seq<U8>): (r: seq<U8>)
    ensures |r| <= 3 * |s|
    ensures forall j :: 0 <= j < |r| ==> r[j] != 0 && (Kept(r[j]) || r[j] == Percent || IsUpperHex(r[j]))
    decreases |s|
  {
    if |s| == 0 || s[0] == 0 then []
    else
      var rest := UriEncode(s[1..]);
      var c := s[0];
      if Kept(c) then
        [c] + rest
      else
        SignedNibbles(c);
        [Percent, UpperDigit((Signed(c) / 16) % 16), UpperDigit(Signed(c) % 16)] + rest
  }

  /** What uriEncode makes of one byte of the string: the byte itself when
      it is kept, otherwise '%' and the capital digits of its high and low
      nibble. */
  lemma {:induction false} EncodeStep(c: U8, t: seq<U8>)
    requires c != 0
    ensures UriEncode([c] + t) ==
            (if Kept(c) then [c] else [Percent, UpperDigit(c / 16), UpperDigit(c % 16)]) +
            UriEncode(t)
  {
    assert ([c] + t)[0] == c && ([c] + t)[1..] == t;
    SignedNibbles(c);
  }

  /** utils.c uriDecode's table: the value of a hex digit of either case, -1
      for every other byte. */
  function DigitValue(c: U8): (v: int)
    ensures -1 <= v < 16
    ensures v >= 0 <==> IsUpperHex(c) || IsLowerHex(c)
  {
    if '0' as int <= c <= '9' as int then c - '0' as int
    else if 'A' as int <= c <= 'F' as int then c - 'A' as int + 10
    else if 'a' as int <= c <= 'f' as int then c - 'a' as int + 10
    else -1
  }

  /** utils.c uriDecode, with `char` taken as signed so that the table's -1
      entries reject non-digits: `%` and two hex digits become the byte they spell
      (`h2 + (h1 << 4)`, where the uchar casts change nothing since both
      digits are below 16); every other byte is copied. */
  function UriDecode(s: seq<U8>): (r: seq<U8>)
    ensures |r| <= |s|
    decreases |s|
  {
    if |s| == 0 || s[0] == 0 then []
    else if s[0] == Percent && |s| >= 3 && DigitValue(s[1]) >= 0 && DigitValue(s[2]) >= 0 then
      var h1, h2 := DigitValue(s[1]), DigitValue(s[2]);
      [h2 + 16 * h1] + UriDecode(s[3..])
    else
      [s[0]] + UriDecode(s[1..])
  }

  /** The capital digits of uriEncode read back as the nibble. */
  lemma DigitValueUpper(v: nat)
    requires v < 16
    ensures DigitValue(UpperDigit(v)) == v
  {
  }

  /** Decoding the encoding of a C string gives the string back. */
  lemma {:induction false} DecodeEncode(s: seq<U8>)
    requires forall j :: 0 <= j < |s| ==> s[j] != 0
    ensures UriDecode(UriEncode(s)) == s
    decreases |s|
  {
    if |s| > 0 {
      var c, e := s[0], UriEncode(s[1..]);
      DecodeEncode(s[1..]);
      if Kept(c) {
        assert UriEncode(s) == [c] + e;
        assert ([c] + e)[1..] == e;
      } else {
        SignedNibbles(c);
        var h, l := c / 16, c % 16;
        var q := [Percent, UpperDigit(h), UpperDigit(l)] + e;
        assert UriEncode(s) == q;
        DigitValueUpper(h);
        DigitValueUpper(l);
        assert q[3..] == e;
        assert DigitValue(q[2]) + 16 * DigitValue(q[1]) == c;
      }
      assert s == [c] + s[1..];
    }
  }

  /** A string with no '%' decodes to itself up to its NUL. */
  lemma {:induction false} DecodeWithoutPercent(s: seq<U8>)
    requires forall j :: 0 <= j < |s| ==> s[j] != 0 && s[j] != Percent
    ensures UriDecode(s) == s
    decreases |s|
  {
    if |s| > 0 {
      DecodeWithoutPercent(s[1..]);
      assert s == [s[0]] + s[1..];
    }
  }

  /** A '%' that is not followed by two hex digits stays in the output. */
  lemma PercentKept(t: seq<U8>)
    requires |t| < 2 || DigitValue(t[0]) < 0 || DigitValue(t[1]) < 0
    ensures UriDecode([Percent] + t) == [Percent] + UriDecode(t)
  {
    assert ([Percent] + t)[1..] == t;
  }

  /** An entry of uriDecode's `char hex[256]` where plain `char` is
      unsigned: the `-1` entries read as 255. */
  function UnsignedEntry(c: U8): (v: nat)
    ensures v < 16 || v == 255
    ensures v < 16 <==> DigitValue(c) >= 0
  {
    if DigitValue(c) >= 0 then DigitValue(c) else 255
  }

  /**
   * utils.c uriDecode where plain `char` is unsigned: the test `!= -1`
   * compares 255 with -1 and never fails, so a '%' always takes the next
   * two bytes and `h2 + (uchar)(h1 << 4)` is cut to a byte.  When one of
   * those two bytes is the NUL (or lies beyond the given bytes) the loop
   * steps over the terminator and reads past the string: None.
   */
  function UriDecodeUnsigned(s: seq<U8>): (r: Option<seq<U8>>)
    ensures r.Some? ==> |r.value| <= |s|
    decreases |s|
  {
    if |s| == 0 || s[0] == 0 then Some([])
    else if s[0] == Percent then
      if |s| < 3 || s[1] == 0 || s[2] == 0 then None
      else
        var c := (UnsignedEntry(s[2]) + (UnsignedEntry(s[1]) * 16) % 256) % 256;
        match UriDecodeUnsigned(s[3..])
        case None => None
        case Some(t) => Some([c] + t)
    else
      match UriDecodeUnsigned(s[1..])
      case None => None
      case Some(t) => Some([s[0]] + t)
  }

  /** Where `char` is unsigned, "%zz" decodes to 0xEF, which the signed
      reading leaves as it is. */
  lemma UnsignedDecodesNonDigits()
    ensures UriDecodeUnsigned([Percent, 'z' as int, 'z' as int]) == Some([0xEF as U8])
    ensures UriDecode([Percent, 'z' as int, 'z' as int]) == [Percent, 'z' as int, 'z' as int]
  {
    var s: seq<U8> := [Percent, 'z' as int, 'z' as int];
    var zz: seq<U8> := ['z' as int, 'z' as int];
    assert s[3..] == [] && UriDecodeUnsigned([]) == Some([]);
    assert UnsignedEntry('z' as int) == 255;
    assert (255 + (255 * 16) % 256) % 256 == 0xEF;
    assert s[0] == Percent && s[1] != 0 && s[2] != 0;
    assert UriDecodeUnsigned(s) == Some([0xEF] + []);
    assert [0xEF] + [] == [0xEF as U8];
    assert s == [Percent] + zz;
    PercentKept(zz);
    DecodeWithoutPercent(zz);
  }

  /** Where `char` is unsigned, a '%' just before the NUL makes uriDecode
      read past the string; the signed reading keeps the '%'. */
  lemma UnsignedReadsPastEnd()
    ensures UriDecodeUnsigned([Percent, 0, 0]).None?
    ensures UriDecode([Percent, 0, 0]) == [Percent]
  {
    var s: seq<U8> := [Percent, 0, 0];
    assert s[1..] == [0, 0];
  }

  /** An escape written by uriEncode decodes back to its byte where `char`
      is unsigned. */
  lemma UnsignedEscape(c: U8, e: seq<U8>, t: seq<U8>)
    requires UriDecodeUnsigned(e) == Some(t)
    ensures UriDecodeUnsigned([Percent, UpperDigit(c / 16), UpperDigit(c % 16)] + e) == Some([c] + t)
  {
    var h, l := c / 16, c % 16;
    var q := [Percent, UpperDigit(h), UpperDigit(l)] + e;
    DigitValueUpper(h);
    DigitValueUpper(l);
    assert q[3..] == e;
    assert q[1] != 0 && q[2] != 0;
    assert UnsignedEntry(q[1]) == h && UnsignedEntry(q[2]) == l;
    DivModUnique(l + h * 16, 256, 0, c);
  }

  /** A kept byte is copied where `char` is unsigned. */
  lemma UnsignedKept(c: U8, e: seq<U8>, t: seq<U8>)
    requires Kept(c) && UriDecodeUnsigned(e) == Some(t)
    ensures UriDecodeUnsigned([c] + e) == Some([c] + t)
  {
    assert ([c] + e)[1..] == e;
  }

  /** The output of uriEncode decodes back under either signedness of
      `char`: it holds only '%' followed by two hex digits and kept bytes. */
  lemma {:induction false} UnsignedDecodeEncode(s: seq<U8>)
    requires forall j :: 0 <= j < |s| ==> s[j] != 0
    ensures UriDecodeUnsigned(UriEncode(s)) == Some(s)
    decreases |s|
  {
    if |s| > 0 {
      var c := s[0];
      UnsignedDecodeEncode(s[1..]);
      EncodeStep(c, s[1..]);
      if Kept(c) {
        UnsignedKept(c, UriEncode(s[1..]), s[1..]);
      } else {
        UnsignedEscape(c, UriEncode(s[1..]), s[1..]);
      }
      assert s == [c] + s[1..];
    }
  }
}
