/**
 * The pseudo hash table of country codes in store.c: 4096 buckets, each an
 * AVL tree of codes (the generic `Avl` tree with no payload), the bucket of
 * a code chosen by cci().  A code is the 16-bit little-endian reading of
 * its two upper-case characters, so "DE" is 'D' + 256 * 'E'.
 */
module CCTable {
  import opened Opt
  import opened Arith
  import opened Avl

  /** A country-code tree: the key is the code; the model keeps no payload. */
  type CCTree = Tree<()>

  const TableSize: nat := 4096

  /** The code of a two-character country name: the first character is the
      low byte. */
  function Code(c0: U8, c1: U8): (r: nat)
    ensures r < B16 && r % B8 == c0 && r / B8 == c1
  {
    DivModUnique(c0 + B8 * c1, B8, c1, c0);
    c0 + B8 * c1
  }

  /**
   * store.c cci: the low and high byte of the 16-bit code, offset by +16 and
   * -64, multiplied as uint32 and reduced modulo the table size.  The
   * negative offset wraps around in the unsigned conversion.
   */
  function Cci(cc: U32): (r: nat)
    ensures r < TableSize
  {
    var code := cc % B16;
    var f0 := (code % B8 + 16) % B32;
    var f1 := (code / B8 - 64) % B32;
    ((f0 * f1) % B32) % TableSize
  }

  /** The wrap-around of the uint32 arithmetic never shows: the bucket is
      the plain product of the offset bytes modulo 4096. */
  lemma CciIsProduct(cc: U32)
    ensures Cci(cc) == ((cc % B16 % B8 + 16) * (cc % B16 / B8 - 64)) % TableSize
  {
    var code := cc % B16;
    var a, y := code % B8 + 16, code / B8 - 64;
    var f1 := y % B32;
    assert (a % B32) == a;
    assert B32 == 0x10_0000 * TableSize;
    ModOfMultiple(a * f1, TableSize, 0x10_0000);
    assert y == (y / B32) * B32 + f1;
    assert a * y == a * f1 + (a * (y / B32) * 0x10_0000) * TableSize;
    ModShift(a * f1, a * (y / B32) * 0x10_0000, TableSize);
  }

  lemma ModOfMultiple(x: int, m: nat, k: nat)
    requires m > 0 && k > 0
    ensures (x % (k * m)) % m == x % m
  {
    var r := x % (k * m);
    assert x == (x / (k * m)) * (k * m) + r;
    assert r == (r / m) * m + r % m;
    assert x == ((x / (k * m)) * k + r / m) * m + r % m;
    DivModUnique(x, m, (x / (k * m)) * k + r / m, r % m);
  }

  lemma ModShift(x: int, d: int, m: nat)
    requires m > 0
    ensures (x + d * m) % m == x % m
  {
    assert x == (x / m) * m + x % m;
    assert x + d * m == (x / m + d) * m + x % m;
    DivModUnique(x + d * m, m, x / m + d, x % m);
  }

  /** Two distinct country codes that share a bucket: "DE" and "YD". */
  lemma CciCollision()
    ensures Code(68, 69) != Code(89, 68)
    ensures Cci(Code(68, 69)) == Cci(Code(89, 68)) == 420
  {
    assert Code(68, 69) == 17732 && Code(89, 68) == 17497;
    CciIsProduct(17732);
    CciIsProduct(17497);
    assert 17732 % B16 == 17732 && 17732 % B8 == 68 && 17732 / B8 == 69;
    assert 17497 % B16 == 17497 && 17497 % B8 == 89 && 17497 / B8 == 68;
  }

  /** The table every operation keeps: 4096 AVL search trees, each holding
      only codes that hash to its own index. */
  ghost predicate Good(t: seq<CCTree>) {
    |t| == TableSize &&
    forall i :: 0 <= i < |t| ==>
      Valid(t[i]) && forall c :: c in Keys(t[i]) ==> c < B32 && Cci(c) == i
  }

  /** The code is in the table: it is in the tree of its own bucket. */
  ghost predicate Stored(t: seq<CCTree>, cc: nat)
    requires |t| == TableSize
  {
    cc < B32 && cc in Keys(t[Cci(cc)])
  }

  /** store.c createCCTable: every bucket starts out empty. */
  function CreateTable(): (r: seq<CCTree>)
    ensures Good(r) && forall cc :: !Stored(r, cc)
  {
    seq(TableSize, _ => Leaf)
  }

  /** store.c findCC: looks the code up in the tree of its bucket. */
  function FindCC(t: seq<CCTree>, cc: U32): (r: Option<Item<()>>)
    requires |t| == TableSize
    ensures r.Some? ==> r.value.key == cc && Stored(t, cc)
  {
    var r := Lookup(cc, t[Cci(cc)]);
    ItemKeys(t[Cci(cc)]);
    r
  }

  /** On a well-formed table findCC finds exactly the stored codes. */
  lemma FindCCComplete(t: seq<CCTree>, cc: U32)
    requires Good(t)
    ensures FindCC(t, cc).Some? <==> Stored(t, cc)
  {
    LookupComplete(cc, t[Cci(cc)]);
  }

  /**
   * store.c storeCC: addCCNode into the bucket of the code.  A code that is
   * already there leaves the table as it is; otherwise exactly that code is
   * added.  `alloc` is whether the allocator hands out the new node; when
   * it does not, the table is left as it is too.
   */
  function StoreCC(t: seq<CCTree>, cc: U32, alloc: bool): (r: seq<CCTree>)
    requires Good(t)
    ensures Good(r)
    ensures Stored(t, cc) || !alloc ==> r == t
    ensures alloc ==> forall d :: Stored(r, d) <==> d == cc || Stored(t, d)
  {
    var i := Cci(cc);
    var f := Insert(t[i], cc, (), alloc);
    var r := t[i := f.tree];
    assert forall j :: 0 <= j < TableSize && j != i ==> r[j] == t[j];
    r
  }

  /** The corrected removeCC: the code is taken out of its bucket tree by
      removeCCNode, whatever the shape of that tree. */
  function RemoveCCFixed(t: seq<CCTree>, cc: U32): (r: seq<CCTree>)
    requires Good(t)
    ensures Good(r)
    ensures forall d :: Stored(r, d) <==> d != cc && Stored(t, d)
  {
    var i := Cci(cc);
    var f := Remove(t[i], cc);
    var r := t[i := f.tree];
    assert forall j :: 0 <= j < TableSize && j != i ==> r[j] == t[j];
    r
  }

  /**
   * store.c removeCC as written: a bucket whose tree is a single node is
   * emptied without comparing that node's code with `cc`; any other
   * bucket goes through removeCCNode.  When the code is stored this is the
   * corrected removal, and it never adds a code.
   */
  function RemoveCC(t: seq<CCTree>, cc: U32): (r: seq<CCTree>)
    requires Good(t)
    ensures Good(r)
    ensures Stored(t, cc) ==> r == RemoveCCFixed(t, cc)
    ensures forall d :: Stored(r, d) ==> d != cc && Stored(t, d)
  {
    var i := Cci(cc);
    match t[i]
    case Leaf => t
    case Node(l, _, _, _, q) =>
      if l.Leaf? && q.Leaf? then
        LoneRoot(t[i], cc);
        var r := t[i := Leaf];
        assert forall j :: 0 <= j < TableSize && j != i ==> r[j] == t[j];
        r
      else
        RemoveCCFixed(t, cc)
  }

  /** Removing the code of a one-node tree leaves the empty tree. */
  lemma LoneRoot(t: CCTree, cc: nat)
    requires t.Node? && t.L.Leaf? && t.R.Leaf? && Balanced(t)
    ensures cc in Keys(t) ==> Remove(t, cc).tree == Leaf
  {
    if cc in Keys(t) {
      assert Keys(Remove(t, cc).tree) == {};
    }
  }

  /** removeCC of an absent code that shares a bucket with a stored one
      deletes the stored one: store "DE", then remove "YD". */
  lemma RemoveCCDropsCollidingCode()
    ensures var t := StoreCC(CreateTable(), Code(68, 69), true);
            Stored(t, Code(68, 69)) && !Stored(t, Code(89, 68)) &&
            !Stored(RemoveCC(t, Code(89, 68)), Code(68, 69))
  {
    CciCollision();
    var de := Code(68, 69);
    var t := StoreCC(CreateTable(), de, true);
    assert Keys(t[Cci(de)]) == {de};
  }
}
