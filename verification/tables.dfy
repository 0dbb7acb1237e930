/**
 * The power-of-two helpers of store.h: inteb4 and inteb6 read 2^e off a
 * table of masks 2^e - 1, and intlb6 finds the binary logarithm of a
 * 128-bit value by bisection over the same table.  The tables are
 * transcribed row by row; the lemmas here check every row.
 */
module PowerTables {
  import opened Arith

  /** store.h v4: row e holds the 32-bit mask with the e lowest bits set. */
  const V4: seq<nat> := [
      0x0, 0x1, 0x3, 0x7, 0xF, 0x1F,
      0x3F, 0x7F, 0xFF, 0x1FF, 0x3FF, 0x7FF,
      0xFFF, 0x1FFF, 0x3FFF, 0x7FFF, 0xFFFF, 0x1_FFFF,
      0x3_FFFF, 0x7_FFFF, 0xF_FFFF, 0x1F_FFFF, 0x3F_FFFF, 0x7F_FFFF,
      0xFF_FFFF, 0x1FF_FFFF, 0x3FF_FFFF, 0x7FF_FFFF, 0xFFF_FFFF, 0x1FFF_FFFF,
      0x3FFF_FFFF, 0x7FFF_FFFF, 0xFFFF_FFFF
    ]

  /** store.h IP6Desc as v6 initialises it: the first 64-bit chunk, then
      the second.  On a little-endian machine the first chunk is the low
      half of the 128-bit `number`. */
  datatype IP6Desc = IP6Desc(chunk0: U64, chunk1: U64)

  /** The 128-bit `number` of the union on a little-endian machine. */
  function Number(d: IP6Desc): nat {
    d.chunk0 + B64 * d.chunk1
  }

  /** store.h v6, in eight blocks of rows: row e holds the 128-bit mask
      with the e lowest bits set. */
  const V6Rows0To15: seq<IP6Desc> := [
      IP6Desc(0x0, 0x0), IP6Desc(0x1, 0x0), IP6Desc(0x3, 0x0),
      IP6Desc(0x7, 0x0), IP6Desc(0xF, 0x0), IP6Desc(0x1F, 0x0),
      IP6Desc(0x3F, 0x0), IP6Desc(0x7F, 0x0), IP6Desc(0xFF, 0x0),
      IP6Desc(0x1FF, 0x0), IP6Desc(0x3FF, 0x0), IP6Desc(0x7FF, 0x0),
      IP6Desc(0xFFF, 0x0), IP6Desc(0x1FFF, 0x0), IP6Desc(0x3FFF, 0x0),
      IP6Desc(0x7FFF, 0x0)
    ]

  const V6Rows16To31: seq<IP6Desc> := [
      IP6Desc(0xFFFF, 0x0), IP6Desc(0x1_FFFF, 0x0), IP6Desc(0x3_FFFF, 0x0),
      IP6Desc(0x7_FFFF, 0x0), IP6Desc(0xF_FFFF, 0x0), IP6Desc(0x1F_FFFF, 0x0),
      IP6Desc(0x3F_FFFF, 0x0), IP6Desc(0x7F_FFFF, 0x0), IP6Desc(0xFF_FFFF, 0x0),
      IP6Desc(0x1FF_FFFF, 0x0), IP6Desc(0x3FF_FFFF, 0x0), IP6Desc(0x7FF_FFFF, 0x0),
      IP6Desc(0xFFF_FFFF, 0x0), IP6Desc(0x1FFF_FFFF, 0x0), IP6Desc(0x3FFF_FFFF, 0x0),
      IP6Desc(0x7FFF_FFFF, 0x0)
    ]

  const V6Rows32To47: seq<IP6Desc> := [
      IP6Desc(0xFFFF_FFFF, 0x0), IP6Desc(0x1_FFFF_FFFF, 0x0), IP6Desc(0x3_FFFF_FFFF, 0x0),
      IP6Desc(0x7_FFFF_FFFF, 0x0), IP6Desc(0xF_FFFF_FFFF, 0x0), IP6Desc(0x1F_FFFF_FFFF, 0x0),
      IP6Desc(0x3F_FFFF_FFFF, 0x0), IP6Desc(0x7F_FFFF_FFFF, 0x0), IP6Desc(0xFF_FFFF_FFFF, 0x0),
      IP6Desc(0x1FF_FFFF_FFFF, 0x0), IP6Desc(0x3FF_FFFF_FFFF, 0x0), IP6Desc(0x7FF_FFFF_FFFF, 0x0),
      IP6Desc(0xFFF_FFFF_FFFF, 0x0), IP6Desc(0x1FFF_FFFF_FFFF, 0x0), IP6Desc(0x3FFF_FFFF_FFFF, 0x0),
      IP6Desc(0x7FFF_FFFF_FFFF, 0x0)
    ]

  const V6Rows48To63: seq<IP6Desc> := [
      IP6Desc(0xFFFF_FFFF_FFFF, 0x0), IP6Desc(0x1_FFFF_FFFF_FFFF, 0x0), IP6Desc(0x3_FFFF_FFFF_FFFF, 0x0),
      IP6Desc(0x7_FFFF_FFFF_FFFF, 0x0), IP6Desc(0xF_FFFF_FFFF_FFFF, 0x0), IP6Desc(0x1F_FFFF_FFFF_FFFF, 0x0),
      IP6Desc(0x3F_FFFF_FFFF_FFFF, 0x0), IP6Desc(0x7F_FFFF_FFFF_FFFF, 0x0), IP6Desc(0xFF_FFFF_FFFF_FFFF, 0x0),
      IP6Desc(0x1FF_FFFF_FFFF_FFFF, 0x0), IP6Desc(0x3FF_FFFF_FFFF_FFFF, 0x0), IP6Desc(0x7FF_FFFF_FFFF_FFFF, 0x0),
      IP6Desc(0xFFF_FFFF_FFFF_FFFF, 0x0), IP6Desc(0x1FFF_FFFF_FFFF_FFFF, 0x0), IP6Desc(0x3FFF_FFFF_FFFF_FFFF, 0x0),
      IP6Desc(0x7FFF_FFFF_FFFF_FFFF, 0x0)
    ]

  const V6Rows64To79: seq<IP6Desc> := [
      IP6Desc(0xFFFF_FFFF_FFFF_FFFF, 0x0), IP6Desc(0xFFFF_FFFF_FFFF_FFFF, 0x1), IP6Desc(0xFFFF_FFFF_FFFF_FFFF, 0x3),
      IP6Desc(0xFFFF_FFFF_FFFF_FFFF, 0x7), IP6Desc(0xFFFF_FFFF_FFFF_FFFF, 0xF), IP6Desc(0xFFFF_FFFF_FFFF_FFFF, 0x1F),
      IP6Desc(0xFFFF_FFFF_FFFF_FFFF, 0x3F), IP6Desc(0xFFFF_FFFF_FFFF_FFFF, 0x7F), IP6Desc(0xFFFF_FFFF_FFFF_FFFF, 0xFF),
      IP6Desc(0xFFFF_FFFF_FFFF_FFFF, 0x1FF), IP6Desc(0xFFFF_FFFF_FFFF_FFFF, 0x3FF), IP6Desc(0xFFFF_FFFF_FFFF_FFFF, 0x7FF),
      IP6Desc(0xFFFF_FFFF_FFFF_FFFF, 0xFFF), IP6Desc(0xFFFF_FFFF_FFFF_FFFF, 0x1FFF), IP6Desc(0xFFFF_FFFF_FFFF_FFFF, 0x3FFF),
      IP6Desc(0xFFFF_FFFF_FFFF_FFFF, 0x7FFF)
    ]

  const V6Rows80To95: seq<IP6Desc> := [
      IP6Desc(0xFFFF_FFFF_FFFF_FFFF, 0xFFFF), IP6Desc(0xFFFF_FFFF_FFFF_FFFF, 0x1_FFFF), IP6Desc(0xFFFF_FFFF_FFFF_FFFF, 0x3_FFFF),
      IP6Desc(0xFFFF_FFFF_FFFF_FFFF, 0x7_FFFF), IP6Desc(0xFFFF_FFFF_FFFF_FFFF, 0xF_FFFF), IP6Desc(0xFFFF_FFFF_FFFF_FFFF, 0x1F_FFFF),
      IP6Desc(0xFFFF_FFFF_FFFF_FFFF, 0x3F_FFFF), IP6Desc(0xFFFF_FFFF_FFFF_FFFF, 0x7F_FFFF), IP6Desc(0xFFFF_FFFF_FFFF_FFFF, 0xFF_FFFF),
      IP6Desc(0xFFFF_FFFF_FFFF_FFFF, 0x1FF_FFFF), IP6Desc(0xFFFF_FFFF_FFFF_FFFF, 0x3FF_FFFF), IP6Desc(0xFFFF_FFFF_FFFF_FFFF, 0x7FF_FFFF),
      IP6Desc(0xFFFF_FFFF_FFFF_FFFF, 0xFFF_FFFF), IP6Desc(0xFFFF_FFFF_FFFF_FFFF, 0x1FFF_FFFF), IP6Desc(0xFFFF_FFFF_FFFF_FFFF, 0x3FFF_FFFF),
      IP6Desc(0xFFFF_FFFF_FFFF_FFFF, 0x7FFF_FFFF)
    ]

  const V6Rows96To111: seq<IP6Desc> := [
      IP6Desc(0xFFFF_FFFF_FFFF_FFFF, 0xFFFF_FFFF), IP6Desc(0xFFFF_FFFF_FFFF_FFFF, 0x1_FFFF_FFFF), IP6Desc(0xFFFF_FFFF_FFFF_FFFF, 0x3_FFFF_FFFF),
      IP6Desc(0xFFFF_FFFF_FFFF_FFFF, 0x7_FFFF_FFFF), IP6Desc(0xFFFF_FFFF_FFFF_FFFF, 0xF_FFFF_FFFF), IP6Desc(0xFFFF_FFFF_FFFF_FFFF, 0x1F_FFFF_FFFF),
      IP6Desc(0xFFFF_FFFF_FFFF_FFFF, 0x3F_FFFF_FFFF), IP6Desc(0xFFFF_FFFF_FFFF_FFFF, 0x7F_FFFF_FFFF), IP6Desc(0xFFFF_FFFF_FFFF_FFFF, 0xFF_FFFF_FFFF),
      IP6Desc(0xFFFF_FFFF_FFFF_FFFF, 0x1FF_FFFF_FFFF), IP6Desc(0xFFFF_FFFF_FFFF_FFFF, 0x3FF_FFFF_FFFF), IP6Desc(0xFFFF_FFFF_FFFF_FFFF, 0x7FF_FFFF_FFFF),
      IP6Desc(0xFFFF_FFFF_FFFF_FFFF, 0xFFF_FFFF_FFFF), IP6Desc(0xFFFF_FFFF_FFFF_FFFF, 0x1FFF_FFFF_FFFF), IP6Desc(0xFFFF_FFFF_FFFF_FFFF, 0x3FFF_FFFF_FFFF),
      IP6Desc(0xFFFF_FFFF_FFFF_FFFF, 0x7FFF_FFFF_FFFF)
    ]

  const V6Rows112To128: seq<IP6Desc> := [
      IP6Desc(0xFFFF_FFFF_FFFF_FFFF, 0xFFFF_FFFF_FFFF), IP6Desc(0xFFFF_FFFF_FFFF_FFFF, 0x1_FFFF_FFFF_FFFF), IP6Desc(0xFFFF_FFFF_FFFF_FFFF, 0x3_FFFF_FFFF_FFFF),
      IP6Desc(0xFFFF_FFFF_FFFF_FFFF, 0x7_FFFF_FFFF_FFFF), IP6Desc(0xFFFF_FFFF_FFFF_FFFF, 0xF_FFFF_FFFF_FFFF), IP6Desc(0xFFFF_FFFF_FFFF_FFFF, 0x1F_FFFF_FFFF_FFFF),
      IP6Desc(0xFFFF_FFFF_FFFF_FFFF, 0x3F_FFFF_FFFF_FFFF), IP6Desc(0xFFFF_FFFF_FFFF_FFFF, 0x7F_FFFF_FFFF_FFFF), IP6Desc(0xFFFF_FFFF_FFFF_FFFF, 0xFF_FFFF_FFFF_FFFF),
      IP6Desc(0xFFFF_FFFF_FFFF_FFFF, 0x1FF_FFFF_FFFF_FFFF), IP6Desc(0xFFFF_FFFF_FFFF_FFFF, 0x3FF_FFFF_FFFF_FFFF), IP6Desc(0xFFFF_FFFF_FFFF_FFFF, 0x7FF_FFFF_FFFF_FFFF),
      IP6Desc(0xFFFF_FFFF_FFFF_FFFF, 0xFFF_FFFF_FFFF_FFFF), IP6Desc(0xFFFF_FFFF_FFFF_FFFF, 0x1FFF_FFFF_FFFF_FFFF), IP6Desc(0xFFFF_FFFF_FFFF_FFFF, 0x3FFF_FFFF_FFFF_FFFF),
      IP6Desc(0xFFFF_FFFF_FFFF_FFFF, 0x7FFF_FFFF_FFFF_FFFF), IP6Desc(0xFFFF_FFFF_FFFF_FFFF, 0xFFFF_FFFF_FFFF_FFFF)
    ]

  const V6: seq<IP6Desc> :=
    V6Rows0To15 + V6Rows16To31 + V6Rows32To47 + V6Rows48To63 +
    V6Rows64To79 + V6Rows80To95 + V6Rows96To111 + V6Rows112To128

  /** From row `from` on, each row of a mask table is one less than the
      power `p`, and `p` doubles from row to row. */
  predicate Rows4(s: seq<nat>, from: nat, p: nat)
    decreases |s| - from
  {
    from >= |s| || (s[from] + 1 == p && Rows4(s, from + 1, 2 * p))
  }

  /** The rows of v6 below row 64: the second chunk is zero and the first
      is one less than `p`. */
  predicate LowRows(s: seq<IP6Desc>, from: nat, p: nat)
    decreases |s| - from
  {
    from >= |s| || (s[from].chunk0 + 1 == p && s[from].chunk1 == 0 && LowRows(s, from + 1, 2 * p))
  }

  /** The rows of v6 from row 64 on: the first chunk has all bits set and
      the second is one less than `p`. */
  predicate HighRows(s: seq<IP6Desc>, from: nat, p: nat)
    decreases |s| - from
  {
    from >= |s| || (s[from].chunk0 == B64 - 1 && s[from].chunk1 + 1 == p && HighRows(s, from + 1, 2 * p))
  }

  lemma {:induction false} Rows4Mean(s: seq<nat>, from: nat, p: nat)
    requires Rows4(s, from, p) && p == Pow2(from)
    ensures forall i :: from <= i < |s| ==> s[i] + 1 == Pow2(i)
    decreases |s| - from
  {
    if from < |s| {
      Rows4Mean(s, from + 1, 2 * p);
    }
  }

  /** The rows of a low block whose first row is row `base` of the table. */
  lemma {:induction false} LowMean(s: seq<IP6Desc>, from: nat, p: nat, base: nat)
    requires LowRows(s, from, p) && p == Pow2(base + from)
    ensures forall i :: from <= i < |s| ==> Number(s[i]) + 1 == Pow2(base + i)
    decreases |s| - from
  {
    if from < |s| {
      LowMean(s, from + 1, 2 * p, base);
    }
  }

  /** The rows of a high block whose first row is row `64 + base`. */
  lemma {:induction false} HighMean(s: seq<IP6Desc>, from: nat, p: nat, base: nat)
    requires HighRows(s, from, p) && p == Pow2(base + from)
    ensures forall i :: from <= i < |s| ==> Number(s[i]) + 1 == Pow2(64 + base + i)
    decreases |s| - from
  {
    if from < |s| {
      HighMean(s, from + 1, 2 * p, base);
      Pow2Is64();
      Pow2Add(64, base + from);
    }
  }

  /** Every row of v4 is 2^e - 1. */
  lemma V4Rows()
    ensures |V4| == 33 && forall e :: 0 <= e < 33 ==> V4[e] + 1 == Pow2(e)
  {
    assert Rows4(V4, 33, 0x2_0000_0000);
    assert Rows4(V4, 32, 0x1_0000_0000);
    assert Rows4(V4, 31, 0x8000_0000);
    assert Rows4(V4, 30, 0x4000_0000);
    assert Rows4(V4, 29, 0x2000_0000);
    assert Rows4(V4, 28, 0x1000_0000);
    assert Rows4(V4, 27, 0x800_0000);
    assert Rows4(V4, 26, 0x400_0000);
    assert Rows4(V4, 25, 0x200_0000);
    assert Rows4(V4, 24, 0x100_0000);
    assert Rows4(V4, 23, 0x80_0000);
    assert Rows4(V4, 22, 0x40_0000);
    assert Rows4(V4, 21, 0x20_0000);
    assert Rows4(V4, 20, 0x10_0000);
    assert Rows4(V4, 19, 0x8_0000);
    assert Rows4(V4, 18, 0x4_0000);
    assert Rows4(V4, 17, 0x2_0000);
    assert Rows4(V4, 16, 0x1_0000);
    assert Rows4(V4, 15, 0x8000);
    assert Rows4(V4, 14, 0x4000);
    assert Rows4(V4, 13, 0x2000);
    assert Rows4(V4, 12, 0x1000);
    assert Rows4(V4, 11, 0x800);
    assert Rows4(V4, 10, 0x400);
    assert Rows4(V4, 9, 0x200);
    assert Rows4(V4, 8, 0x100);
    assert Rows4(V4, 7, 0x80);
    assert Rows4(V4, 6, 0x40);
    assert Rows4(V4, 5, 0x20);
    assert Rows4(V4, 4, 0x10);
    assert Rows4(V4, 3, 0x8);
    assert Rows4(V4, 2, 0x4);
    assert Rows4(V4, 1, 0x2);
    assert Rows4(V4, 0, 0x1);
    Rows4Mean(V4, 0, 1);
  }

  /** The lengths of the eight blocks of v6. */
  lemma V6Lengths()
    ensures |V6Rows0To15| == 16 && |V6Rows16To31| == 16 && |V6Rows32To47| == 16 && |V6Rows48To63| == 16
    ensures |V6Rows64To79| == 16 && |V6Rows80To95| == 16 && |V6Rows96To111| == 16 && |V6Rows112To128| == 17
    ensures |V6| == 129
  {
  }

  lemma V6Block0()
    ensures |V6Rows0To15| == 16 && LowRows(V6Rows0To15, 0, 0x1)
  {
    assert LowRows(V6Rows0To15, 16, 0x1_0000);
    assert LowRows(V6Rows0To15, 15, 0x8000);
    assert LowRows(V6Rows0To15, 14, 0x4000);
    assert LowRows(V6Rows0To15, 13, 0x2000);
    assert LowRows(V6Rows0To15, 12, 0x1000);
    assert LowRows(V6Rows0To15, 11, 0x800);
    assert LowRows(V6Rows0To15, 10, 0x400);
    assert LowRows(V6Rows0To15, 9, 0x200);
    assert LowRows(V6Rows0To15, 8, 0x100);
    assert LowRows(V6Rows0To15, 7, 0x80);
    assert LowRows(V6Rows0To15, 6, 0x40);
    assert LowRows(V6Rows0To15, 5, 0x20);
    assert LowRows(V6Rows0To15, 4, 0x10);
    assert LowRows(V6Rows0To15, 3, 0x8);
    assert LowRows(V6Rows0To15, 2, 0x4);
    assert LowRows(V6Rows0To15, 1, 0x2);
  }

  lemma V6Mean0()
    ensures forall i :: 0 <= i < |V6Rows0To15| ==> Number(V6Rows0To15[i]) + 1 == Pow2(0 + i)
  {
    V6Block0();
    LowMean(V6Rows0To15, 0, 0x1, 0);
  }

  lemma V6Part0()
    ensures |V6| == 129 && forall e :: 0 <= e < 16 ==> Number(V6[e]) + 1 == Pow2(e)
  {
    V6Lengths();
    V6Mean0();
    forall e | 0 <= e < 16
      ensures Number(V6[e]) + 1 == Pow2(e)
    {
      assert V6[e] == V6Rows0To15[e - 0];
    }
  }

  lemma V6Block16()
    ensures |V6Rows16To31| == 16 && LowRows(V6Rows16To31, 0, 0x1_0000)
  {
    assert LowRows(V6Rows16To31, 16, 0x1_0000_0000);
    assert LowRows(V6Rows16To31, 15, 0x8000_0000);
    assert LowRows(V6Rows16To31, 14, 0x4000_0000);
    assert LowRows(V6Rows16To31, 13, 0x2000_0000);
    assert LowRows(V6Rows16To31, 12, 0x1000_0000);
    assert LowRows(V6Rows16To31, 11, 0x800_0000);
    assert LowRows(V6Rows16To31, 10, 0x400_0000);
    assert LowRows(V6Rows16To31, 9, 0x200_0000);
    assert LowRows(V6Rows16To31, 8, 0x100_0000);
    assert LowRows(V6Rows16To31, 7, 0x80_0000);
    assert LowRows(V6Rows16To31, 6, 0x40_0000);
    assert LowRows(V6Rows16To31, 5, 0x20_0000);
    assert LowRows(V6Rows16To31, 4, 0x10_0000);
    assert LowRows(V6Rows16To31, 3, 0x8_0000);
    assert LowRows(V6Rows16To31, 2, 0x4_0000);
    assert LowRows(V6Rows16To31, 1, 0x2_0000);
  }

  lemma V6Mean16()
    ensures forall i :: 0 <= i < |V6Rows16To31| ==> Number(V6Rows16To31[i]) + 1 == Pow2(16 + i)
  {
    V6Block16();
    Pow2Is16();
    Pow2Is32();
    Pow2Is48();
    LowMean(V6Rows16To31, 0, 0x1_0000, 16);
  }

  lemma V6Part16()
    ensures |V6| == 129 && forall e :: 16 <= e < 32 ==> Number(V6[e]) + 1 == Pow2(e)
  {
    V6Lengths();
    V6Mean16();
    forall e | 16 <= e < 32
      ensures Number(V6[e]) + 1 == Pow2(e)
    {
      assert V6[e] == V6Rows16To31[e - 16];
    }
  }

  lemma V6Block32()
    ensures |V6Rows32To47| == 16 && LowRows(V6Rows32To47, 0, 0x1_0000_0000)
  {
    assert LowRows(V6Rows32To47, 16, 0x1_0000_0000_0000);
    assert LowRows(V6Rows32To47, 15, 0x8000_0000_0000);
    assert LowRows(V6Rows32To47, 14, 0x4000_0000_0000);
    assert LowRows(V6Rows32To47, 13, 0x2000_0000_0000);
    assert LowRows(V6Rows32To47, 12, 0x1000_0000_0000);
    assert LowRows(V6Rows32To47, 11, 0x800_0000_0000);
    assert LowRows(V6Rows32To47, 10, 0x400_0000_0000);
    assert LowRows(V6Rows32To47, 9, 0x200_0000_0000);
    assert LowRows(V6Rows32To47, 8, 0x100_0000_0000);
    assert LowRows(V6Rows32To47, 7, 0x80_0000_0000);
    assert LowRows(V6Rows32To47, 6, 0x40_0000_0000);
    assert LowRows(V6Rows32To47, 5, 0x20_0000_0000);
    assert LowRows(V6Rows32To47, 4, 0x10_0000_0000);
    assert LowRows(V6Rows32To47, 3, 0x8_0000_0000);
    assert LowRows(V6Rows32To47, 2, 0x4_0000_0000);
    assert LowRows(V6Rows32To47, 1, 0x2_0000_0000);
  }

  lemma V6Mean32()
    ensures forall i :: 0 <= i < |V6Rows32To47| ==> Number(V6Rows32To47[i]) + 1 == Pow2(32 + i)
  {
    V6Block32();
    Pow2Is16();
    Pow2Is32();
    Pow2Is48();
    LowMean(V6Rows32To47, 0, 0x1_0000_0000, 32);
  }

  lemma V6Part32()
    ensures |V6| == 129 && forall e :: 32 <= e < 48 ==> Number(V6[e]) + 1 == Pow2(e)
  {
    V6Lengths();
    V6Mean32();
    forall e | 32 <= e < 48
      ensures Number(V6[e]) + 1 == Pow2(e)
    {
      assert V6[e] == V6Rows32To47[e - 32];
    }
  }

  lemma V6Block48()
    ensures |V6Rows48To63| == 16 && LowRows(V6Rows48To63, 0, 0x1_0000_0000_0000)
  {
    assert LowRows(V6Rows48To63, 16, 0x1_0000_0000_0000_0000);
    assert LowRows(V6Rows48To63, 15, 0x8000_0000_0000_0000);
    assert LowRows(V6Rows48To63, 14, 0x4000_0000_0000_0000);
    assert LowRows(V6Rows48To63, 13, 0x2000_0000_0000_0000);
    assert LowRows(V6Rows48To63, 12, 0x1000_0000_0000_0000);
    assert LowRows(V6Rows48To63, 11, 0x800_0000_0000_0000);
    assert LowRows(V6Rows48To63, 10, 0x400_0000_0000_0000);
    assert LowRows(V6Rows48To63, 9, 0x200_0000_0000_0000);
    assert LowRows(V6Rows48To63, 8, 0x100_0000_0000_0000);
    assert LowRows(V6Rows48To63, 7, 0x80_0000_0000_0000);
    assert LowRows(V6Rows48To63, 6, 0x40_0000_0000_0000);
    assert LowRows(V6Rows48To63, 5, 0x20_0000_0000_0000);
    assert LowRows(V6Rows48To63, 4, 0x10_0000_0000_0000);
    assert LowRows(V6Rows48To63, 3, 0x8_0000_0000_0000);
    assert LowRows(V6Rows48To63, 2, 0x4_0000_0000_0000);
    assert LowRows(V6Rows48To63, 1, 0x2_0000_0000_0000);
  }

  lemma V6Mean48()
    ensures forall i :: 0 <= i < |V6Rows48To63| ==> Number(V6Rows48To63[i]) + 1 == Pow2(48 + i)
  {
    V6Block48();
    Pow2Is16();
    Pow2Is32();
    Pow2Is48();
    LowMean(V6Rows48To63, 0, 0x1_0000_0000_0000, 48);
  }

  lemma V6Part48()
    ensures |V6| == 129 && forall e :: 48 <= e < 64 ==> Number(V6[e]) + 1 == Pow2(e)
  {
    V6Lengths();
    V6Mean48();
    forall e | 48 <= e < 64
      ensures Number(V6[e]) + 1 == Pow2(e)
    {
      assert V6[e] == V6Rows48To63[e - 48];
    }
  }

  lemma V6Block64()
    ensures |V6Rows64To79| == 16 && HighRows(V6Rows64To79, 0, 0x1)
  {
    assert HighRows(V6Rows64To79, 16, 0x1_0000);
    assert HighRows(V6Rows64To79, 15, 0x8000);
    assert HighRows(V6Rows64To79, 14, 0x4000);
    assert HighRows(V6Rows64To79, 13, 0x2000);
    assert HighRows(V6Rows64To79, 12, 0x1000);
    assert HighRows(V6Rows64To79, 11, 0x800);
    assert HighRows(V6Rows64To79, 10, 0x400);
    assert HighRows(V6Rows64To79, 9, 0x200);
    assert HighRows(V6Rows64To79, 8, 0x100);
    assert HighRows(V6Rows64To79, 7, 0x80);
    assert HighRows(V6Rows64To79, 6, 0x40);
    assert HighRows(V6Rows64To79, 5, 0x20);
    assert HighRows(V6Rows64To79, 4, 0x10);
    assert HighRows(V6Rows64To79, 3, 0x8);
    assert HighRows(V6Rows64To79, 2, 0x4);
    assert HighRows(V6Rows64To79, 1, 0x2);
  }

  lemma V6Mean64()
    ensures forall i :: 0 <= i < |V6Rows64To79| ==> Number(V6Rows64To79[i]) + 1 == Pow2(64 + i)
  {
    V6Block64();
    HighMean(V6Rows64To79, 0, 0x1, 0);
  }

  lemma V6Part64()
    ensures |V6| == 129 && forall e :: 64 <= e < 80 ==> Number(V6[e]) + 1 == Pow2(e)
  {
    V6Lengths();
    V6Mean64();
    forall e | 64 <= e < 80
      ensures Number(V6[e]) + 1 == Pow2(e)
    {
      assert V6[e] == V6Rows64To79[e - 64];
    }
  }

  lemma V6Block80()
    ensures |V6Rows80To95| == 16 && HighRows(V6Rows80To95, 0, 0x1_0000)
  {
    assert HighRows(V6Rows80To95, 16, 0x1_0000_0000);
    assert HighRows(V6Rows80To95, 15, 0x8000_0000);
    assert HighRows(V6Rows80To95, 14, 0x4000_0000);
    assert HighRows(V6Rows80To95, 13, 0x2000_0000);
    assert HighRows(V6Rows80To95, 12, 0x1000_0000);
    assert HighRows(V6Rows80To95, 11, 0x800_0000);
    assert HighRows(V6Rows80To95, 10, 0x400_0000);
    assert HighRows(V6Rows80To95, 9, 0x200_0000);
    assert HighRows(V6Rows80To95, 8, 0x100_0000);
    assert HighRows(V6Rows80To95, 7, 0x80_0000);
    assert HighRows(V6Rows80To95, 6, 0x40_0000);
    assert HighRows(V6Rows80To95, 5, 0x20_0000);
    assert HighRows(V6Rows80To95, 4, 0x10_0000);
    assert HighRows(V6Rows80To95, 3, 0x8_0000);
    assert HighRows(V6Rows80To95, 2, 0x4_0000);
    assert HighRows(V6Rows80To95, 1, 0x2_0000);
  }

  lemma V6Mean80()
    ensures forall i :: 0 <= i < |V6Rows80To95| ==> Number(V6Rows80To95[i]) + 1 == Pow2(80 + i)
  {
    V6Block80();
    Pow2Is16();
    Pow2Is32();
    Pow2Is48();
    HighMean(V6Rows80To95, 0, 0x1_0000, 16);
  }

  lemma V6Part80()
    ensures |V6| == 129 && forall e :: 80 <= e < 96 ==> Number(V6[e]) + 1 == Pow2(e)
  {
    V6Lengths();
    V6Mean80();
    forall e | 80 <= e < 96
      ensures Number(V6[e]) + 1 == Pow2(e)
    {
      assert V6[e] == V6Rows80To95[e - 80];
    }
  }

  lemma V6Block96()
    ensures |V6Rows96To111| == 16 && HighRows(V6Rows96To111, 0, 0x1_0000_0000)
  {
    assert HighRows(V6Rows96To111, 16, 0x1_0000_0000_0000);
    assert HighRows(V6Rows96To111, 15, 0x8000_0000_0000);
    assert HighRows(V6Rows96To111, 14, 0x4000_0000_0000);
    assert HighRows(V6Rows96To111, 13, 0x2000_0000_0000);
    assert HighRows(V6Rows96To111, 12, 0x1000_0000_0000);
    assert HighRows(V6Rows96To111, 11, 0x800_0000_0000);
    assert HighRows(V6Rows96To111, 10, 0x400_0000_0000);
    assert HighRows(V6Rows96To111, 9, 0x200_0000_0000);
    assert HighRows(V6Rows96To111, 8, 0x100_0000_0000);
    assert HighRows(V6Rows96To111, 7, 0x80_0000_0000);
    assert HighRows(V6Rows96To111, 6, 0x40_0000_0000);
    assert HighRows(V6Rows96To111, 5, 0x20_0000_0000);
    assert HighRows(V6Rows96To111, 4, 0x10_0000_0000);
    assert HighRows(V6Rows96To111, 3, 0x8_0000_0000);
    assert HighRows(V6Rows96To111, 2, 0x4_0000_0000);
    assert HighRows(V6Rows96To111, 1, 0x2_0000_0000);
  }

  lemma V6Mean96()
    ensures forall i :: 0 <= i < |V6Rows96To111| ==> Number(V6Rows96To111[i]) + 1 == Pow2(96 + i)
  {
    V6Block96();
    Pow2Is16();
    Pow2Is32();
    Pow2Is48();
    HighMean(V6Rows96To111, 0, 0x1_0000_0000, 32);
  }

  lemma V6Part96()
    ensures |V6| == 129 && forall e :: 96 <= e < 112 ==> Number(V6[e]) + 1 == Pow2(e)
  {
    V6Lengths();
    V6Mean96();
    forall e | 96 <= e < 112
      ensures Number(V6[e]) + 1 == Pow2(e)
    {
      assert V6[e] == V6Rows96To111[e - 96];
    }
  }

  lemma V6Block112()
    ensures |V6Rows112To128| == 17 && HighRows(V6Rows112To128, 0, 0x1_0000_0000_0000)
  {
    assert HighRows(V6Rows112To128, 17, 0x2_0000_0000_0000_0000);
    assert HighRows(V6Rows112To128, 16, 0x1_0000_0000_0000_0000);
    assert HighRows(V6Rows112To128, 15, 0x8000_0000_0000_0000);
    assert HighRows(V6Rows112To128, 14, 0x4000_0000_0000_0000);
    assert HighRows(V6Rows112To128, 13, 0x2000_0000_0000_0000);
    assert HighRows(V6Rows112To128, 12, 0x1000_0000_0000_0000);
    assert HighRows(V6Rows112To128, 11, 0x800_0000_0000_0000);
    assert HighRows(V6Rows112To128, 10, 0x400_0000_0000_0000);
    assert HighRows(V6Rows112To128, 9, 0x200_0000_0000_0000);
    assert HighRows(V6Rows112To128, 8, 0x100_0000_0000_0000);
    assert HighRows(V6Rows112To128, 7, 0x80_0000_0000_0000);
    assert HighRows(V6Rows112To128, 6, 0x40_0000_0000_0000);
    assert HighRows(V6Rows112To128, 5, 0x20_0000_0000_0000);
    assert HighRows(V6Rows112To128, 4, 0x10_0000_0000_0000);
    assert HighRows(V6Rows112To128, 3, 0x8_0000_0000_0000);
    assert HighRows(V6Rows112To128, 2, 0x4_0000_0000_0000);
    assert HighRows(V6Rows112To128, 1, 0x2_0000_0000_0000);
  }

  lemma V6Mean112()
    ensures forall i :: 0 <= i < |V6Rows112To128| ==> Number(V6Rows112To128[i]) + 1 == Pow2(112 + i)
  {
    V6Block112();
    Pow2Is16();
    Pow2Is32();
    Pow2Is48();
    HighMean(V6Rows112To128, 0, 0x1_0000_0000_0000, 48);
  }

  lemma V6Part112()
    ensures |V6| == 129 && forall e :: 112 <= e < 129 ==> Number(V6[e]) + 1 == Pow2(e)
  {
    V6Lengths();
    V6Mean112();
    forall e | 112 <= e < 129
      ensures Number(V6[e]) + 1 == Pow2(e)
    {
      assert V6[e] == V6Rows112To128[e - 112];
    }
  }

  /** Every row of v6 is 2^e - 1. */
  lemma V6Rows()
    ensures |V6| == 129 && forall e :: 0 <= e < 129 ==> Number(V6[e]) + 1 == Pow2(e)
  {
    V6Part0();
    V6Part16();
    V6Part32();
    V6Part48();
    V6Part64();
    V6Part80();
    V6Part96();
    V6Part112();
  }

  /** store.h inteb4: 2^e for an exponent 0..31 and 1 for any other int32;
      the sum never wraps. */
  function Inteb4(e: int): (r: nat)
    ensures 0 <= e <= 31 ==> r == Pow2(e)
    ensures !(0 <= e <= 31) ==> r == 1
    ensures r < B32
  {
    V4Rows();
    if 0 <= e <= 31 then
      Pow2Mono(e, 31);
      V4[e] + 1
    else 1
  }

  /** store.h inteb6: 2^e for an exponent 0..127 and 1 for any other int32;
      the sum never wraps. */
  function Inteb6(e: int): (r: nat)
    ensures 0 <= e <= 127 ==> r == Pow2(e)
    ensures !(0 <= e <= 127) ==> r == 1
    ensures r < B128
  {
    V6Rows();
    if 0 <= e <= 127 then
      Pow2Mono(e, 127);
      Pow2IsB128();
      Number(V6[e]) + 1
    else 1
  }

  /** The binary logarithm: the exponent of the highest set bit. */
  function Log2(v: nat): (r: nat)
    requires v >= 1
    ensures Pow2(r) <= v < Pow2(r + 1)
  {
    if v == 1 then 0
    else
      DivNat(v, 2);
      var r := Log2(v / 2) + 1;
      assert Pow2(r) == 2 * Pow2(r - 1) && Pow2(r + 1) == 2 * Pow2(r);
      r
  }

  /** A value below 2^k has its highest bit below k. */
  lemma {:induction false} Log2Below(v: nat, k: nat)
    requires 1 <= v < Pow2(k)
    ensures Log2(v) < k
  {
    if Log2(v) >= k {
      Pow2Mono(k, Log2(v));
    }
  }

  /** A value of at least 2^k has its highest bit at k or above. */
  lemma Log2Above(v: nat, k: nat)
    requires Pow2(k) <= v
    ensures k <= Log2(v)
  {

  }

  /** Row `o` of v6 read as its 128-bit number: the mask 2^o - 1. */
  function Mask6(o: nat): (m: nat)
    requires o < 129
    ensures m + 1 == Pow2(o)
  {
    V6Rows();
    Number(V6[o])
  }

  /**
   * store.h intlb6: bisects v6 for the row o with v6[o] < v <= v6[o + 1],
   * that is 2^o <= v < 2^(o + 1); a zero `v` falls through to 0.
   */
  method Intlb6(v: nat) returns (r: int)
    requires v < B128
    ensures v == 0 ==> r == 0
    ensures v >= 1 ==> r == Log2(v)
  {
    if v >= 1 {
      Pow2IsB128();
      Log2Below(v, 128);
    }
    var p, q := 0, 127;
    while p <= q
      invariant 0 <= p <= q + 1 && q <= 127
      invariant v >= 1 ==> p <= Log2(v) <= q
      decreases q - p + 1
    {
      var o := (p + q) / 2;
      var u := Mask6(o);
      if u < v && v <= Mask6(o + 1) {
        Log2Above(v, o);
        Log2Below(v, o + 1);
        return o;
      } else if v <= u {
        if v >= 1 {
          Log2Below(v, o);
        }
        q := o - 1;
      } else {
        Log2Above(v, o + 1);
        p := o + 1;
      }
    }
    return 0;
  }
}
