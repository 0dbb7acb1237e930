/**
 * The flat record file: serializeIP4Tree and serializeIP6Tree in store.c
 * write the ranges of a store as IP4Set/IP6Set records in traversal order,
 * and bisectionIP4Search/bisectionIP6Search in store.h look an address up
 * in the sorted array of records.  Records are written with the machine's
 * byte order; the model takes it to be little-endian.
 */
module Flat {
  import opened Arith
  import opened Opt
  import opened Avl
  import opened Ranges
  import opened Bytes

  /** store.h IP4Set and IP6Set: [0] the lower bound, [1] the upper bound,
      [2] the tag. */
  datatype Rec = Rec(lo: nat, hi: nat, cc: nat)

  predicate Holds(r: Rec, ip: nat) {
    r.lo <= ip <= r.hi
  }

  /** The first `n` records are non-empty ranges in ascending order that do
      not overlap: what bisection needs. */
  ghost predicate Sorted(s: seq<Rec>, n: int)
    requires n <= |s|
  {
    (forall i :: 0 <= i < n ==> s[i].lo <= s[i].hi) &&
    (forall i, j :: 0 <= i < j < n ==> s[i].hi < s[j].lo)
  }

  function RecOf(x: Item<Span>): Rec {
    Rec(x.key, x.val.hi, x.val.cc)
  }

  /**
   * store.c serializeIP4Tree (and serializeIP6Tree): the records of the left
   * subtree, the node's own record, then the records of the right subtree.
   */
  function Serialize(t: Store): (r: seq<Rec>)
    ensures |r| == |InOrder(t)|
    ensures forall i :: 0 <= i < |r| ==> r[i] == RecOf(InOrder(t)[i])
  {
    match t
    case Leaf => []
    case Node(l, k, v, _, rt) =>
      var a, b := Serialize(l), Serialize(rt);
      assert forall i :: |a| < i < |a| + 1 + |b| ==>
        (a + [Rec(k, v.hi, v.cc)] + b)[i] == b[i - |a| - 1];
      a + [Rec(k, v.hi, v.cc)] + b
  }

  /** The file of a well-formed store is sorted, and holds exactly the
      stored ranges. */
  lemma SerializeSorted(w: nat, t: Store)
    requires Good(w, t)
    ensures Sorted(Serialize(t), |Serialize(t)|)
    ensures forall i :: 0 <= i < |Serialize(t)| ==> Serialize(t)[i].hi < w
    ensures forall x :: x in Items(t) <==> RecOf(x) in Serialize(t)
  {
    var s, o := Serialize(t), InOrder(t);
    InOrderAscending(t);
    forall i | 0 <= i < |s|
      ensures o[i] in Items(t) && s[i].lo <= s[i].hi < w
    {
      InOrderItems(t, o[i]);
    }
    forall i, j | 0 <= i < j < |s|
      ensures s[i].hi < s[j].lo
    {
      InOrderItems(t, o[i]);
      InOrderItems(t, o[j]);
    }
    forall x
      ensures x in Items(t) <==> RecOf(x) in s
    {
      InOrderItems(t, x);
      if RecOf(x) in s {
        var i :| 0 <= i < |s| && s[i] == RecOf(x);
        assert o[i] == x;
      }
    }
  }

  /** The file answers a lookup exactly as the tree does. */
  lemma SerializedFind(w: nat, t: Store, ip: nat)
    requires Good(w, t)
    ensures Find(ip, t).None? <==>
              forall i :: 0 <= i < |Serialize(t)| ==> !Holds(Serialize(t)[i], ip)
  {
    FindComplete(ip, t);
    if Find(ip, t).Some? {
      SerializeSorted(w, t);
      var x := Find(ip, t).value;
      assert RecOf(x) in Serialize(t) && Holds(RecOf(x), ip);
    } else {
      NoneHolds(t, ip);
    }
  }

  lemma NoneHolds(t: Store, ip: nat)
    requires !Covered(Items(t), ip)
    ensures forall i :: 0 <= i < |Serialize(t)| ==> !Holds(Serialize(t)[i], ip)
  {
    var s, o := Serialize(t), InOrder(t);
    forall i | 0 <= i < |s|
      ensures !Holds(s[i], ip)
    {
      InOrderItems(t, o[i]);
      assert !Contains(o[i], ip);
    }
  }

  /**
   * store.h bisectionIP4Search (and bisectionIP6Search): bisects the first
   * `count` records for one that holds `ip`; -1 when the range of indexes
   * runs empty, which it does at once when `count <= 0`.
   */
  method Bisect(ip: nat, sets: seq<Rec>, count: int) returns (o: int)
    requires count <= |sets|
    ensures o == -1 || (0 <= o < count && Holds(sets[o], ip))
    ensures count <= 0 ==> o == -1
    ensures Sorted(sets, count) ==>
              (o == -1 <==> forall i :: 0 <= i < count ==> !Holds(sets[i], ip))
  {
    var p, q := 0, count - 1;
    while p <= q
      invariant 0 <= p && q < count
      invariant Sorted(sets, count) ==>
                  forall i :: 0 <= i < count && (i < p || q < i) ==> !Holds(sets[i], ip)
      decreases q - p + 1
    {
      o := (p + q) / 2;
      var u := sets[o].lo;
      if u <= ip && ip <= sets[o].hi {
        return o;
      } else if ip < u {
        q := o - 1;
      } else {
        p := o + 1;
      }
    }
    return -1;
  }

  /** One record as fwrite lays it out: three words of `n` bytes each (4 for
      IP4Set, 16 for IP6Set, whose tag is widened to 128 bits). */
  function RecBytes(r: Rec, n: nat): (b: seq<U8>)
    ensures |b| == 3 * n
  {
    LE(r.lo, n) + LE(r.hi, n) + LE(r.cc, n)
  }

  function RecFromBytes(b: seq<U8>, n: nat): Rec
    requires |b| == 3 * n
  {
    Rec(FromLE(b[..n]), FromLE(b[n..2 * n]), FromLE(b[2 * n..]))
  }

  /** The bytes of a record file, one record after the other. */
  function FileBytes(s: seq<Rec>, n: nat): (b: seq<U8>)
    ensures |b| == 3 * n * |s|
  {
    if |s| == 0 then [] else RecBytes(s[0], n) + FileBytes(s[1..], n)
  }

  /** Reading a record file back: one record per `3 * n` bytes. */
  function FileRecords(b: seq<U8>, n: nat): seq<Rec>
    requires n > 0 && |b| % (3 * n) == 0
    decreases |b|
  {
    if |b| == 0 then []
    else
      DivModUnique(|b| - 3 * n, 3 * n, |b| / (3 * n) - 1, 0);
      [RecFromBytes(b[..3 * n], n)] + FileRecords(b[3 * n..], n)
  }

  /** Records whose fields fit in words of `n` bytes. */
  ghost predicate Fits(s: seq<Rec>, n: nat) {
    forall i :: 0 <= i < |s| ==>
      s[i].lo < Pow2(8 * n) && s[i].hi < Pow2(8 * n) && s[i].cc < Pow2(8 * n)
  }

  /** Reading a record back from its bytes gives the record. */
  lemma RecRoundTrip(r: Rec, n: nat)
    requires r.lo < Pow2(8 * n) && r.hi < Pow2(8 * n) && r.cc < Pow2(8 * n)
    ensures RecFromBytes(RecBytes(r, n), n) == r
  {
    var b := RecBytes(r, n);
    assert b[..n] == LE(r.lo, n);
    assert b[n..2 * n] == LE(r.hi, n);
    assert b[2 * n..] == LE(r.cc, n);
    LERoundTrip(r.lo, n);
    LERoundTrip(r.hi, n);
    LERoundTrip(r.cc, n);
  }

  /** Reading a written file gives back the records that were written. */
  lemma {:induction false} FileRoundTrip(s: seq<Rec>, n: nat)
    requires n > 0 && Fits(s, n)
    ensures |FileBytes(s, n)| % (3 * n) == 0
    ensures FileRecords(FileBytes(s, n), n) == s
  {
    var b := FileBytes(s, n);
    DivModUnique(|b|, 3 * n, |s|, 0);
    if |s| > 0 {
      assert Fits(s[1..], n) by {
        forall i | 0 <= i < |s| - 1
          ensures s[1..][i] == s[i + 1]
        {
        }
      }
      FileRoundTrip(s[1..], n);
      RecRoundTrip(s[0], n);
      assert b[..3 * n] == RecBytes(s[0], n);
      assert b[3 * n..] == FileBytes(s[1..], n);
    }
  }

  /** The records of a serialized IPv4 store (12-byte records) or IPv6
      store (48-byte records) survive the trip through the file, and the
      records read back are sorted. */
  lemma WrittenFileReadsBack(t: Store, w: nat, n: nat)
    requires (w == W4 && n == 4) || (w == W6 && n == 16)
    requires Good(w, t) && forall x :: x in Items(t) ==> x.val.cc < B32
    ensures |FileBytes(Serialize(t), n)| == 3 * n * |Serialize(t)|
    ensures FileRecords(FileBytes(Serialize(t), n), n) == Serialize(t)
    ensures Sorted(Serialize(t), |Serialize(t)|)
  {
    var s := Serialize(t);
    SerializeSorted(w, t);
    Pow2Is32();
    Pow2IsB128();
    Pow2Mono(32, 8 * n);
    assert w == Pow2(8 * n);
    assert Fits(s, n) by {
      forall i | 0 <= i < |s|
        ensures s[i].lo < w && s[i].hi < w && s[i].cc < B32
      {
        assert s[i].cc == InOrder(t)[i].val.cc;
        InOrderItems(t, InOrder(t)[i]);
      }
    }
    FileRoundTrip(s, n);
  }
}
