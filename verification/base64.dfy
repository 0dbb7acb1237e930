/**
 * The Base64 quad codec of utils.c (the alphabet of section 4 of RFC 4648):
 * encode3/encode2/encode1 turn three, two or one bytes into four alphabet
 * characters, padding with '=', and decode4 turns four characters back
 * into three bytes through the 256-entry table dec256.  The bit operations
 * are the C ones of `Arith`.
 */
module Base64 {
  import opened Arith

  /** utils.c enc64: the 64 characters of the alphabet in order, written
      as its capitals, its small letters, and its digits and two symbols. */
  const Enc64: string := Capitals + Smalls + DigitsAndSymbols
  const Capitals: string := "ABCDEFGHIJKLMNOPQRSTUVWXYZ"
  const Smalls: string := "abcdefghijklmnopqrstuvwxyz"
  const DigitsAndSymbols: string := "0123456789+/"

  const Pad: U8 := '=' as int

  /** The alphabet character of a 6-bit group, read off its three ranges. */
  function EncChar(v: nat): (c: U8)
    requires v < 64
  {
    if v < 26 then 'A' as int + v
    else if v < 52 then 'a' as int + (v - 26)
    else if v < 62 then '0' as int + (v - 52)
    else if v == 62 then '+' as int
    else '/' as int
  }

  /** Rows `from` onwards of one part of the alphabet, whose first row is
      row `base` of the whole, agree with `EncChar`. */
  predicate PartFrom(s: string, from: nat, base: nat)
    decreases |s| - from
  {
    from >= |s| || (Row(s, from, base) && PartFrom(s, from + 1, base))
  }

  /** Row `v` of a part whose first row is row `base` of the alphabet. */
  predicate Row(s: string, v: nat, base: nat)
    requires v < |s|
  {
    base + v < 64 && s[v] as int == EncChar(base + v)
  }

  lemma {:induction false} PartFromMean(s: string, from: nat, base: nat)
    requires PartFrom(s, from, base)
    ensures forall v :: from <= v < |s| ==> Row(s, v, base)
    decreases |s| - from
  {
    if from < |s| {
      PartFromMean(s, from + 1, base);
    }
  }

  lemma CapitalsRows()
    ensures |Capitals| == 26 && PartFrom(Capitals, 0, 0)
  {
    assert PartFrom(Capitals, 26, 0);
    assert PartFrom(Capitals, 25, 0);
    assert PartFrom(Capitals, 24, 0);
    assert PartFrom(Capitals, 23, 0);
    assert PartFrom(Capitals, 22, 0);
    assert PartFrom(Capitals, 21, 0);
    assert PartFrom(Capitals, 20, 0);
    assert PartFrom(Capitals, 19, 0);
    assert PartFrom(Capitals, 18, 0);
    assert PartFrom(Capitals, 17, 0);
    assert PartFrom(Capitals, 16, 0);
    assert PartFrom(Capitals, 15, 0);
    assert PartFrom(Capitals, 14, 0);
    assert PartFrom(Capitals, 13, 0);
    assert PartFrom(Capitals, 12, 0);
    assert PartFrom(Capitals, 11, 0);
    assert PartFrom(Capitals, 10, 0);
    assert PartFrom(Capitals, 9, 0);
    assert PartFrom(Capitals, 8, 0);
    assert PartFrom(Capitals, 7, 0);
    assert PartFrom(Capitals, 6, 0);
    assert PartFrom(Capitals, 5, 0);
    assert PartFrom(Capitals, 4, 0);
    assert PartFrom(Capitals, 3, 0);
    assert PartFrom(Capitals, 2, 0);
    assert PartFrom(Capitals, 1, 0);
    assert PartFrom(Capitals, 0, 0);
  }

  lemma SmallsRows()
    ensures |Smalls| == 26 && PartFrom(Smalls, 0, 26)
  {
    assert PartFrom(Smalls, 26, 26);
    assert PartFrom(Smalls, 25, 26);
    assert PartFrom(Smalls, 24, 26);
    assert PartFrom(Smalls, 23, 26);
    assert PartFrom(Smalls, 22, 26);
    assert PartFrom(Smalls, 21, 26);
    assert PartFrom(Smalls, 20, 26);
    assert PartFrom(Smalls, 19, 26);
    assert PartFrom(Smalls, 18, 26);
    assert PartFrom(Smalls, 17, 26);
    assert PartFrom(Smalls, 16, 26);
    assert PartFrom(Smalls, 15, 26);
    assert PartFrom(Smalls, 14, 26);
    assert PartFrom(Smalls, 13, 26);
    assert PartFrom(Smalls, 12, 26);
    assert PartFrom(Smalls, 11, 26);
    assert PartFrom(Smalls, 10, 26);
    assert PartFrom(Smalls, 9, 26);
    assert PartFrom(Smalls, 8, 26);
    assert PartFrom(Smalls, 7, 26);
    assert PartFrom(Smalls, 6, 26);
    assert PartFrom(Smalls, 5, 26);
    assert PartFrom(Smalls, 4, 26);
    assert PartFrom(Smalls, 3, 26);
    assert PartFrom(Smalls, 2, 26);
    assert PartFrom(Smalls, 1, 26);
    assert PartFrom(Smalls, 0, 26);
  }

  lemma DigitsAndSymbolsRows()
    ensures |DigitsAndSymbols| == 12 && PartFrom(DigitsAndSymbols, 0, 52)
  {
    assert PartFrom(DigitsAndSymbols, 12, 52);
    assert PartFrom(DigitsAndSymbols, 11, 52);
    assert PartFrom(DigitsAndSymbols, 10, 52);
    assert PartFrom(DigitsAndSymbols, 9, 52);
    assert PartFrom(DigitsAndSymbols, 8, 52);
    assert PartFrom(DigitsAndSymbols, 7, 52);
    assert PartFrom(DigitsAndSymbols, 6, 52);
    assert PartFrom(DigitsAndSymbols, 5, 52);
    assert PartFrom(DigitsAndSymbols, 4, 52);
    assert PartFrom(DigitsAndSymbols, 3, 52);
    assert PartFrom(DigitsAndSymbols, 2, 52);
    assert PartFrom(DigitsAndSymbols, 1, 52);
    assert PartFrom(DigitsAndSymbols, 0, 52);
  }

  /** The literal alphabet is the table of three ranges and two symbols. */
  lemma AlphabetIsRanges()
    ensures |Enc64| == 64
    ensures forall v :: 0 <= v < 64 ==> Enc64[v] as int == EncChar(v)
  {
    CapitalsAt();
    SmallsAt();
    DigitsAndSymbolsAt();
  }

  lemma CapitalsAt()
    ensures |Enc64| == 64
    ensures forall v :: 0 <= v < 26 ==> Enc64[v] as int == EncChar(v)
  {
    CapitalsRows();
    PartFromMean(Capitals, 0, 0);
    forall v | 0 <= v < 26
      ensures Enc64[v] as int == EncChar(v)
    {
      assert Enc64[v] == Capitals[v] && Row(Capitals, v, 0);
    }
  }

  lemma SmallsAt()
    ensures forall v :: 26 <= v < 52 ==> Enc64[v] as int == EncChar(v)
  {
    SmallsRows();
    PartFromMean(Smalls, 0, 26);
    forall v | 26 <= v < 52
      ensures Enc64[v] as int == EncChar(v)
    {
      assert Enc64[v] == Smalls[v - 26] && Row(Smalls, v - 26, 26);
    }
  }

  lemma DigitsAndSymbolsAt()
    ensures forall v :: 52 <= v < 64 ==> Enc64[v] as int == EncChar(v)
  {
    DigitsAndSymbolsRows();
    PartFromMean(DigitsAndSymbols, 0, 52);
    forall v | 52 <= v < 64
      ensures Enc64[v] as int == EncChar(v)
    {
      assert Enc64[v] == DigitsAndSymbols[v - 52] && Row(DigitsAndSymbols, v - 52, 52);
    }
  }

  /** utils.c dec256: the 6-bit group of an alphabet character, 0x40 for
      every other byte (the pad '=' among them). */
  function Dec(c: U8): (r: nat)
    ensures r <= 0x40
  {
    if 'A' as int <= c <= 'Z' as int then c - 'A' as int
    else if 'a' as int <= c <= 'z' as int then c - 'a' as int + 26
    else if '0' as int <= c <= '9' as int then c - '0' as int + 52
    else if c == '+' as int then 62
    else if c == '/' as int then 63
    else 0x40
  }

  /** dec256 inverts the alphabet: a group below 64 is the one whose
      character `c` is, and 0x40 marks exactly the bytes outside it. */
  lemma DecMeans(c: U8)
    ensures Dec(c) < 64 ==> EncChar(Dec(c)) == c
    ensures Dec(c) == 0x40 <==> forall v :: 0 <= v < 64 ==> EncChar(v) != c
  {
  }

  /** Decoding inverts the alphabet. */
  lemma DecEnc(v: nat)
    requires v < 64
    ensures Dec(EncChar(v)) == v
  {
  }

  /** The character `enc64[v]` of the source, for a group the masks and
      shifts have already brought below 64. */
  function Enc(v: nat): (c: U8)
    requires v < 64
    ensures c == EncChar(v)
  {
    AlphabetIsRanges();
    Enc64[v] as int
  }

  /** `&` with an even mask drops the low bit and masks the rest one bit
      lower. */
  lemma AndEvenMask(x: nat, mm: nat, m: nat)
    requires mm == 2 * m
    ensures And(x, mm) == 2 * And(x / 2, m)
  {
    if x > 0 && m > 0 {
      DivModUnique(mm, 2, m, 0);
    }
  }

  /** `x & 0xF0` on a byte clears its low nibble, one bit at a time. */
  lemma MaskF0(x: U8)
    ensures And(x, 0xF0) == 16 * (x / 16)
  {
    AndEvenMask(x, 0xF0, 0x78);
    AndEvenMask(x / 2, 0x78, 0x3C);
    AndEvenMask(x / 2 / 2, 0x3C, 0x1E);
    AndEvenMask(x / 2 / 2 / 2, 0x1E, 0x0F);
    assert x / 2 / 2 / 2 / 2 == x / 16;
    Pow2Small();
    AndAllOnes(x / 16, 4);
  }

  /** `x & 0xC0` on a byte keeps its top two bits. */
  lemma MaskC0(x: U8)
    ensures And(x, 0xC0) == 64 * (x / 64)
  {
    AndEvenMask(x, 0xC0, 0x60);
    AndEvenMask(x / 2, 0x60, 0x30);
    AndEvenMask(x / 2 / 2, 0x30, 0x18);
    MaskC0Low(x / 2 / 2 / 2);
    assert x / 2 / 2 / 2 / 8 == x / 64;
  }

  lemma MaskC0Low(y: nat)
    requires y < 32
    ensures And(y, 0x18) == 8 * (y / 8)
  {
    AndEvenMask(y, 0x18, 0x0C);
    AndEvenMask(y / 2, 0x0C, 0x06);
    AndEvenMask(y / 2 / 2, 0x06, 0x03);
    assert y / 2 / 2 / 2 == y / 8;
    assert Pow2(2) == 4;
    AndAllOnes(y / 8, 2);
  }

  /** `(x & 0xF0) >> 4` on a byte is its high nibble. */
  lemma HighNibble(x: U8)
    ensures Shr(And(x, 0xF0), 4) == x / 16
  {
    Pow2Small();
    MaskF0(x);
  }

  /** `(x & 0xC0) >> 6` on a byte is its top two bits. */
  lemma HighPair(x: U8)
    ensures Shr(And(x, 0xC0), 6) == x / 64
  {
    Pow2Small();
    MaskC0(x);
  }

  /** The first group of encode3/2/1: `in[0] >> 2`. */
  lemma Group0(a: U8)
    ensures Shr(a, 2) == a / 4 < 64
  {
    Pow2Small();
  }

  /** The second group: `(in[0] & 0x03) << 4 | (in[1] & 0xF0) >> 4`. */
  lemma Group1(a: U8, b: U8)
    ensures Or(And(a, 0x03) * 16, Shr(And(b, 0xF0), 4)) == (a % 4) * 16 + b / 16 < 64
  {
    Pow2Small();
    AndLowMask(a, 2);
    HighNibble(b);
    OrDisjoint(a % 4, b / 16, 4);
  }

  /** The third group: `(in[1] & 0x0F) << 2 | (in[2] & 0xC0) >> 6`. */
  lemma Group2(b: U8, c: U8)
    ensures Or(And(b, 0x0F) * 4, Shr(And(c, 0xC0), 6)) == (b % 16) * 4 + c / 64 < 64
  {
    Pow2Small();
    AndLowMask(b, 4);
    HighPair(c);
    OrDisjoint(b % 16, c / 64, 2);
  }

  /** The last group: `in[2] & 0x3F`. */
  lemma Group3(c: U8)
    ensures And(c, 0x3F) == c % 64
  {
    Pow2Small();
    AndLowMask(c, 6);
  }

  /** utils.c encode3: three bytes as four characters, six bits each, high
      bits first.  The result is the four bytes in memory order. */
  function Encode3(a: U8, b: U8, c: U8): (r: seq<U8>)
    ensures |r| == 4
    ensures r[0] == EncChar(a / 4) && r[1] == EncChar((a % 4) * 16 + b / 16)
    ensures r[2] == EncChar((b % 16) * 4 + c / 64) && r[3] == EncChar(c % 64)
  {
    Group0(a);
    Group1(a, b);
    Group2(b, c);
    Group3(c);
    [Enc(Shr(a, 2)),
     Enc(Or(And(a, 0x03) * 16, Shr(And(b, 0xF0), 4))),
     Enc(Or(And(b, 0x0F) * 4, Shr(And(c, 0xC0), 6))),
     Enc(And(c, 0x3F))]
  }

  /** utils.c encode2: two bytes as three characters and one '='. */
  function Encode2(a: U8, b: U8): (r: seq<U8>)
    ensures |r| == 4 && r[3] == Pad && r[2] != Pad
    ensures r[0] == EncChar(a / 4) && r[1] == EncChar((a % 4) * 16 + b / 16)
    ensures r[2] == EncChar((b % 16) * 4)
  {
    Group0(a);
    Group1(a, b);
    Pow2Small();
    AndLowMask(b, 4);
    [Enc(Shr(a, 2)),
     Enc(Or(And(a, 0x03) * 16, Shr(And(b, 0xF0), 4))),
     Enc(And(b, 0x0F) * 4),
     Pad]
  }

  /** utils.c encode1: one byte as two characters and two '='. */
  function Encode1(a: U8): (r: seq<U8>)
    ensures |r| == 4 && r[2] == Pad && r[3] == Pad && r[1] != Pad
    ensures r[0] == EncChar(a / 4) && r[1] == EncChar((a % 4) * 16)
  {
    Group0(a);
    Pow2Small();
    AndLowMask(a, 2);
    [Enc(Shr(a, 2)), Enc(And(a, 0x03) * 16), Pad, Pad]
  }

  /**
   * utils.c decode4: the four table values are joined with shifts and `|`
   * and each output byte keeps the low eight bits (the uchar cast).  An
   * input outside the alphabet contributes 0x40 and so corrupts the bytes
   * next to it; the source does not report it.
   */
  function Decode4(q: seq<U8>): (r: seq<U8>)
    requires |q| == 4
    ensures |r| == 3
    ensures Dec(q[0]) < 64 && Dec(q[1]) < 64 && Dec(q[2]) < 64 && Dec(q[3]) < 64 ==>
              r[0] as int * 0x10000 + r[1] as int * 0x100 + r[2] as int ==
              Dec(q[0]) * 0x40000 + Dec(q[1]) * 0x1000 + Dec(q[2]) * 0x40 + Dec(q[3])
  {
    var d0, d1, d2, d3 := Dec(q[0]), Dec(q[1]), Dec(q[2]), Dec(q[3]);
    var r := [Or(Shl(d0, 2, 32), Shr(d1, 4)) % 256,
              Or(Shl(d1, 4, 32), Shr(d2, 2)) % 256,
              Or(Shl(d2, 6, 32), d3) % 256];
    if d0 < 64 && d1 < 64 && d2 < 64 && d3 < 64 then JoinGroups(d0, d1, d2, d3); r else r
  }

  /** The three bytes decode4 joins from four 6-bit groups are the 24-bit
      number the groups spell, high group first. */
  lemma {:induction false} JoinGroups(d0: nat, d1: nat, d2: nat, d3: nat)
    requires d0 < 64 && d1 < 64 && d2 < 64 && d3 < 64
    ensures (Or(Shl(d0, 2, 32), Shr(d1, 4)) % 256) * 0x10000 +
            (Or(Shl(d1, 4, 32), Shr(d2, 2)) % 256) * 0x100 +
            Or(Shl(d2, 6, 32), d3) % 256 ==
            d0 * 0x40000 + d1 * 0x1000 + d2 * 0x40 + d3
  {
    JoinHigh(d0, d1);
    JoinMiddle(d1, d2);
    JoinLow(d2, d3);
    var h1, l1 := d1 / 16, d1 % 16;
    var h2, l2 := d2 / 4, d2 % 4;
    assert (d0 * 4 + h1) * 0x10000 == d0 * 0x40000 + h1 * 0x10000;
    assert (l1 * 16 + h2) * 0x100 == l1 * 0x1000 + h2 * 0x100;
    assert d1 * 0x1000 == h1 * 0x10000 + l1 * 0x1000;
    assert d2 * 0x40 == h2 * 0x100 + l2 * 0x40;
  }

  /** Byte 0 of decode4 on two groups: no bit is cut. */
  lemma JoinHigh(d0: nat, d1: nat)
    requires d0 < 64 && d1 < 64
    ensures Or(Shl(d0, 2, 32), Shr(d1, 4)) % 256 == d0 * 4 + d1 / 16
  {
    Pow2Small();
    Shr4(d1);
    Join(d0, d1 / 16, 2);
    DivModUnique(d0 * 4 + d1 / 16, 256, 0, d0 * 4 + d1 / 16);
  }

  /** Byte 1 of decode4 on two groups: the top two bits of `d1` are cut. */
  lemma JoinMiddle(d1: nat, d2: nat)
    requires d1 < 64 && d2 < 64
    ensures Or(Shl(d1, 4, 32), Shr(d2, 2)) % 256 == (d1 % 16) * 16 + d2 / 4
  {
    Pow2Small();
    Shr2(d2);
    Join(d1, d2 / 4, 4);
    assert d1 * 16 + d2 / 4 == (d1 / 16) * 256 + ((d1 % 16) * 16 + d2 / 4);
    DivModUnique(d1 * 16 + d2 / 4, 256, d1 / 16, (d1 % 16) * 16 + d2 / 4);
  }

  /** Byte 2 of decode4 on two groups: the top four bits of `d2` are cut. */
  lemma JoinLow(d2: nat, d3: nat)
    requires d2 < 64 && d3 < 64
    ensures Or(Shl(d2, 6, 32), d3) % 256 == (d2 % 4) * 64 + d3
  {
    Pow2Small();
    Join(d2, d3, 6);
    assert d2 * 64 + d3 == (d2 / 4) * 256 + ((d2 % 4) * 64 + d3);
    DivModUnique(d2 * 64 + d3, 256, d2 / 4, (d2 % 4) * 64 + d3);
  }

  /** One output byte of decode4: `hi << s | lo`, cut to eight bits, when
      `lo` fits below the shift. */
  lemma {:induction false} Join(hi: nat, lo: nat, s: nat)
    requires hi < 128 && 2 <= s <= 6 && lo < Pow2(s)
    ensures Or(Shl(hi, s, 32), lo) == hi * Pow2(s) + lo
  {
    Pow2Is128();
    Pow2Mono(7, 32 - s);
    ShlExact(hi, s, 32);
    OrDisjoint(hi, lo, s);
  }

  lemma Shr2(d: nat)
    ensures Shr(d, 2) == d / 4
  {
    Pow2Small();
  }

  lemma Shr4(d: nat)
    ensures Shr(d, 4) == d / 16
  {
    Pow2Small();
  }

  /** `hi << s | lo` where `hi` and `lo` are the parts of a byte split at
      bit `s`, cut to eight bits, is that byte. */
  lemma Rejoin(x: U8, hi: nat, lo: nat, s: nat)
    requires 2 <= s <= 6 && lo < Pow2(s) && x == hi * Pow2(s) + lo
    ensures Or(Shl(hi, s, 32), lo) % 256 == x
  {
    Pow2Mono(1, s);
    assert Pow2(1) == 2;
    assert hi < 128;
    Join(hi, lo, s);
    DivModUnique(x, 256, 0, x);
  }

  /** Byte 0 of decode4, from groups `a / 4` and `(a % 4) * 16 + x`. */
  lemma Byte0(a: U8, x: nat)
    requires x < 16
    ensures Or(Shl(a / 4, 2, 32), Shr((a % 4) * 16 + x, 4)) % 256 == a
  {
    var h, r := a / 4, a % 4;
    Shr4(r * 16 + x);
    DivBetween(r * 16 + x, 16, r);
    Pow2Small();
    Rejoin(a, h, r, 2);
  }

  /** Byte 1 of decode4, from groups `d1 = (a % 4) * 16 + b / 16` and
      `d2 = (b % 16) * 4 + y`. */
  lemma Byte1(d1: nat, d2: nat, a: U8, b: U8, y: nat)
    requires y < 4 && d1 == (a % 4) * 16 + b / 16 && d2 == (b % 16) * 4 + y
    ensures Or(Shl(d1, 4, 32), Shr(d2, 2)) % 256 == b
  {
    var r, h, l := a % 4, b / 16, b % 16;
    Shr2(d2);
    DivBetween(d2, 4, l);
    Pow2Small();
    Join(d1, l, 4);
    assert d1 * 16 + l == r * 256 + b;
    DivModUnique(r * 256 + b, 256, r, b);
  }

  /** Byte 2 of decode4, from groups `(b % 16) * 4 + c / 64` and `c % 64`. */
  lemma Byte2(b: U8, c: U8)
    ensures Or(Shl((b % 16) * 4 + c / 64, 6, 32), c % 64) % 256 == c
  {
    var l, h, r := b % 16, c / 64, c % 64;
    Pow2Small();
    Join(l * 4 + h, r, 6);
    assert (l * 4 + h) * 64 + r == l * 256 + c;
    DivModUnique(l * 256 + c, 256, l, c);
  }

  /** The character of group `v` decodes to `v`. */
  lemma DecAt(q: seq<U8>, i: nat, v: nat)
    requires i < |q| && v < 64 && q[i] == EncChar(v)
    ensures Dec(q[i]) == v
  {
    DecEnc(v);
  }

  /** Byte 0 of a quad depends on its first two groups only. */
  lemma DecodeFirst(q: seq<U8>, a: U8, x: nat)
    requires |q| == 4 && x < 16
    requires Dec(q[0]) == a / 4 && Dec(q[1]) == (a % 4) * 16 + x
    ensures Decode4(q)[0] == a
  {
    Byte0(a, x);
  }

  /** Byte 1 of a quad depends on its middle two groups only. */
  lemma DecodeSecond(q: seq<U8>, a: U8, b: U8, y: nat)
    requires |q| == 4 && y < 4
    requires Dec(q[1]) == (a % 4) * 16 + b / 16 && Dec(q[2]) == (b % 16) * 4 + y
    ensures Decode4(q)[1] == b
  {
    Byte1(Dec(q[1]), Dec(q[2]), a, b, y);
  }

  /** Byte 2 of a quad depends on its last two groups only. */
  lemma DecodeThird(q: seq<U8>, b: U8, c: U8)
    requires |q| == 4
    requires Dec(q[2]) == (b % 16) * 4 + c / 64 && Dec(q[3]) == c % 64
    ensures Decode4(q)[2] == c
  {
    Byte2(b, c);
  }

  /** Section 4 of RFC 4648: decoding a full quad gives back the three bytes. */
  lemma DecodeEncode3(a: U8, b: U8, c: U8)
    ensures Decode4(Encode3(a, b, c)) == [a, b, c]
  {
    var q := Encode3(a, b, c);
    DecAt(q, 0, a / 4);
    DecAt(q, 1, (a % 4) * 16 + b / 16);
    DecAt(q, 2, (b % 16) * 4 + c / 64);
    DecAt(q, 3, c % 64);
    DecodeFirst(q, a, b / 16);
    DecodeSecond(q, a, b, c / 64);
    DecodeThird(q, b, c);
  }

  /** A quad with one pad decodes to its two bytes first. */
  lemma DecodeEncode2(a: U8, b: U8)
    ensures Decode4(Encode2(a, b))[0] == a && Decode4(Encode2(a, b))[1] == b
  {
    var q := Encode2(a, b);
    DecAt(q, 0, a / 4);
    DecAt(q, 1, (a % 4) * 16 + b / 16);
    DecAt(q, 2, (b % 16) * 4);
    DecodeFirst(q, a, b / 16);
    DecodeSecond(q, a, b, 0);
  }

  /** A quad with two pads decodes to its byte first. */
  lemma DecodeEncode1(a: U8)
    ensures Decode4(Encode1(a))[0] == a
  {
    var q := Encode1(a);
    DecAt(q, 0, a / 4);
    DecAt(q, 1, (a % 4) * 16);
    DecodeFirst(q, a, 0);
  }
}
