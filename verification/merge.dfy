/**
 * The upsert loop that ipdb.c runs for every IPv4 and IPv6 record of a
 * registry statistics file: the incoming range [lo, hi] with tag `cc`
 * swallows every stored range that findNet reports, growing to their
 * hull, and the hull is inserted once at the end.  This loop is what keeps
 * the stored ranges disjoint.
 */
module Merge {
  import opened Opt
  import opened Avl
  import opened Ranges

  /** The entries of a sequence, as a set. */
  ghost function Elems(xs: seq<Item<Span>>): set<Item<Span>> {
    set i | 0 <= i < |xs| :: xs[i]
  }

  /** The smallest lower and the largest upper bound of [lo, hi] and the
      ranges `xs`, in the order the loop widens them. */
  function Hull(lo: nat, hi: nat, xs: seq<Item<Span>>): (r: (nat, nat))
    ensures r.0 <= lo && hi <= r.1
    ensures forall i :: 0 <= i < |xs| ==> r.0 <= xs[i].key && xs[i].val.hi <= r.1
    ensures r.0 == lo || exists i :: 0 <= i < |xs| && r.0 == xs[i].key
    ensures r.1 == hi || exists i :: 0 <= i < |xs| && r.1 == xs[i].val.hi
  {
    if |xs| == 0 then (lo, hi)
    else
      var h := Hull(lo, hi, xs[..|xs| - 1]);
      var x := xs[|xs| - 1];
      assert forall i :: 0 <= i < |xs| - 1 ==> xs[..|xs| - 1][i] == xs[i];
      (if x.key < h.0 then x.key else h.0, if x.val.hi > h.1 then x.val.hi else h.1)
  }

  /** Absorbing one more range widens the hull to cover it. */
  lemma HullSnoc(lo: nat, hi: nat, xs: seq<Item<Span>>, n: Item<Span>)
    ensures var h := Hull(lo, hi, xs);
            Hull(lo, hi, xs + [n]) ==
              (if n.key < h.0 then n.key else h.0, if n.val.hi > h.1 then n.val.hi else h.1)
  {
    assert (xs + [n])[..|xs|] == xs;
  }

  /** Every absorbed range passed the merge test against the hull of what
      came before it. */
  ghost predicate Chain(lo: nat, hi: nat, cc: nat, xs: seq<Item<Span>>) {
    forall i :: 0 <= i < |xs| ==>
      var h := Hull(lo, hi, xs[..i]);
      Mergeable(h.0, h.1, cc, xs[i])
  }

  /** The hull is exactly the union of the incoming range and the absorbed
      ones. */
  ghost predicate HullIsUnion(lo: nat, hi: nat, xs: seq<Item<Span>>) {
    var h := Hull(lo, hi, xs);
    forall ip: nat :: h.0 <= ip <= h.1 <==> lo <= ip <= hi || Covered(Elems(xs), ip)
  }

  /** The store left after absorbing `xs` from `t`. */
  ghost predicate Remaining(w: nat, t: Store, cur: Store, xs: seq<Item<Span>>) {
    Valid(t) && Valid(cur) && Bounded(w, Items(t)) &&
    Items(cur) == Items(t) - Elems(xs) &&
    Elems(xs) <= Items(t) &&
    (forall i, j :: 0 <= i < j < |xs| ==> xs[i].key != xs[j].key)
  }

  /** What holds of the store `cur` and the ranges absorbed so far on every
      turn of the loop. */
  ghost predicate LoopInv(w: nat, t: Store, lo: nat, hi: nat, cc: nat, cur: Store, xs: seq<Item<Span>>) {
    lo <= hi < w &&
    Remaining(w, t, cur, xs) &&
    Hull(lo, hi, xs).1 < w &&
    Chain(lo, hi, cc, xs) &&
    HullIsUnion(lo, hi, xs)
  }

  /**
   * ipdb.c:119-130 (IPv4) and ipdb.c:152-163 (IPv6).  Returns the new
   * store, the ranges absorbed in the order findNet reported them, and the
   * change of the record counter.  `alloc` is whether the final insertion
   * gets its node.
   */
  method Upsert(w: nat, t: Store, lo: nat, hi: nat, cc: nat, alloc: bool)
    returns (t': Store, absorbed: seq<Item<Span>>, delta: int)
    requires Valid(t) && Bounded(w, Items(t)) && lo <= hi < w
    ensures delta == 1 - |absorbed|
    ensures Valid(t') && Bounded(w, Items(t'))
    ensures Elems(absorbed) <= Items(t)
    ensures forall i, j :: 0 <= i < j < |absorbed| ==> absorbed[i].key != absorbed[j].key
    ensures Chain(lo, hi, cc, absorbed)
    ensures Disjoint(Items(t)) ==>
              var h := Hull(lo, hi, absorbed);
              (forall x :: x in Items(t) - Elems(absorbed) ==> !Mergeable(h.0, h.1, cc, x)) &&
              Items(t') == Items(t) - Elems(absorbed) + (if alloc then {Item(h.0, Span(h.1, cc))} else {}) &&
              Disjoint(Items(t'))
    ensures Disjoint(Items(t)) && alloc ==>
              forall ip: nat :: Covered(Items(t'), ip) <==> Covered(Items(t), ip) || lo <= ip <= hi
  {
    var l, h := lo, hi;
    var cur := t;
    absorbed := [];
    delta := 0;
    StartLoop(w, t, lo, hi, cc);
    while true
      invariant LoopInv(w, t, lo, hi, cc, cur, absorbed)
      invariant (l, h) == Hull(lo, hi, absorbed)
      invariant delta == -|absorbed|
      decreases |Items(cur)|
    {
      var found := FindNet(w, l, h, cc, cur);
      if found.None? {
        break;
      }
      var n := found.value;
      if n.key < l {
        l := n.key;
      }
      if n.val.hi > h {
        h := n.val.hi;
      }
      var next := Remove(cur, n.key).tree;
      BoundedSubset(w, Items(t), Items(cur));
      Reported(w, t, lo, hi, cc, cur, absorbed, n);
      RemoveOne(cur, n);
      LoopStep(w, t, lo, hi, cc, cur, absorbed, n, next);
      HullSnoc(lo, hi, absorbed, n);
      cur := next;
      delta := delta - 1;
      absorbed := absorbed + [n];
    }
    t' := Insert(cur, l, Span(h, cc), alloc).tree;
    delta := delta + 1;
    LoopEnd(w, t, lo, hi, cc, cur, absorbed, alloc, t');
  }

  lemma StartLoop(w: nat, t: Store, lo: nat, hi: nat, cc: nat)
    requires Valid(t) && Bounded(w, Items(t)) && lo <= hi < w
    ensures LoopInv(w, t, lo, hi, cc, t, [])
  {
    assert Elems([]) == {};
  }

  lemma ElemsSnoc(xs: seq<Item<Span>>, n: Item<Span>)
    ensures Elems(xs + [n]) == Elems(xs) + {n}
  {
    var ys := xs + [n];
    forall x | x in Elems(ys) ensures x in Elems(xs) + {n} {
      var i :| 0 <= i < |ys| && ys[i] == x;
      if i < |xs| {
        assert xs[i] == x;
      }
    }
    forall x | x in Elems(xs) ensures x in Elems(ys) {
      var i :| 0 <= i < |xs| && xs[i] == x;
      assert ys[i] == x;
    }
    assert ys[|xs|] == n;
  }

  /** One turn of the loop keeps the invariant and removes one entry:
      `n` is what findNet reported and `next` the store without it. */
  lemma LoopStep(w: nat, t: Store, lo: nat, hi: nat, cc: nat, cur: Store, xs: seq<Item<Span>>,
                 n: Item<Span>, next: Store)
    requires LoopInv(w, t, lo, hi, cc, cur, xs)
    requires n in Items(cur) && n.key <= n.val.hi < w
    requires var h := Hull(lo, hi, xs); Mergeable(h.0, h.1, cc, n)
    requires Hull(lo, hi, xs + [n]).1 < w
    requires Valid(next) && Items(next) == Items(cur) - {n} && |Items(next)| < |Items(cur)|
    ensures LoopInv(w, t, lo, hi, cc, next, xs + [n])
  {
    RemainingStep(w, t, cur, xs, n, next);
    ChainGrows(lo, hi, cc, xs, n);
    UnionGrows(lo, hi, xs, n);
  }

  /** What the loop learns about the range findNet reports. */
  lemma Reported(w: nat, t: Store, lo: nat, hi: nat, cc: nat, cur: Store, xs: seq<Item<Span>>,
                 n: Item<Span>)
    requires Bounded(w, Items(cur))
    requires var h := Hull(lo, hi, xs); h.0 <= h.1 < w && FindNet(w, h.0, h.1, cc, cur) == Some(n)
    ensures n in Items(cur) && n.key <= n.val.hi < w
    ensures var h := Hull(lo, hi, xs); Mergeable(h.0, h.1, cc, n)
    ensures Hull(lo, hi, xs + [n]).1 < w
  {
    var h := Hull(lo, hi, xs);
    assert n in Items(cur);
    NetTestMeansMergeable(w, h.0, h.1, cc, n);
    HullSnoc(lo, hi, xs, n);
  }

  lemma RemainingStep(w: nat, t: Store, cur: Store, xs: seq<Item<Span>>, n: Item<Span>, next: Store)
    requires Remaining(w, t, cur, xs) && n in Items(cur)
    requires Valid(next) && Items(next) == Items(cur) - {n}
    ensures Remaining(w, t, next, xs + [n])
  {
    ElemsSnoc(xs, n);
    KeysStayDistinct(w, t, cur, xs, n);
  }

  lemma KeysStayDistinct(w: nat, t: Store, cur: Store, xs: seq<Item<Span>>, n: Item<Span>)
    requires Remaining(w, t, cur, xs) && n in Items(cur)
    ensures forall i, j :: 0 <= i < j < |xs + [n]| ==> (xs + [n])[i].key != (xs + [n])[j].key
  {
    UniqueKeys(t);
    var ys := xs + [n];
    forall i, j | 0 <= i < j < |ys| ensures ys[i].key != ys[j].key {
      if j == |xs| {
        assert ys[i] in Elems(xs);
      } else {
        assert ys[i] == xs[i] && ys[j] == xs[j];
      }
    }
  }

  lemma ChainGrows(lo: nat, hi: nat, cc: nat, xs: seq<Item<Span>>, n: Item<Span>)
    requires Chain(lo, hi, cc, xs)
    requires var h := Hull(lo, hi, xs); Mergeable(h.0, h.1, cc, n)
    ensures Chain(lo, hi, cc, xs + [n])
  {
    var ys := xs + [n];
    forall i | 0 <= i < |ys|
      ensures var h := Hull(lo, hi, ys[..i]); Mergeable(h.0, h.1, cc, ys[i])
    {
      if i < |xs| {
        assert ys[..i] == xs[..i];
      } else {
        assert ys[..i] == xs;
      }
    }
  }

  lemma UnionGrows(lo: nat, hi: nat, xs: seq<Item<Span>>, n: Item<Span>)
    requires n.key <= n.val.hi
    requires HullIsUnion(lo, hi, xs)
    requires var h := Hull(lo, hi, xs); n.key <= h.1 + 1 && h.0 <= n.val.hi + 1
    ensures HullIsUnion(lo, hi, xs + [n])
  {
    var h := Hull(lo, hi, xs);
    HullSnoc(lo, hi, xs, n);
    ElemsSnoc(xs, n);
    var h' := Hull(lo, hi, xs + [n]);
    UnionStep(lo, hi, h.0, h.1, h'.0, h'.1, n, Elems(xs), Elems(xs + [n]));
  }

  /** Widening an interval [a0, a1] to cover an overlapping or adjacent
      range `n` keeps it equal to the union it describes. */
  lemma UnionStep(lo: nat, hi: nat, a0: nat, a1: nat, b0: nat, b1: nat, n: Item<Span>,
                  e: set<Item<Span>>, e': set<Item<Span>>)
    requires e' == e + {n} && n.key <= n.val.hi
    requires forall ip: nat :: a0 <= ip <= a1 <==> lo <= ip <= hi || Covered(e, ip)
    requires b0 == (if n.key < a0 then n.key else a0)
    requires b1 == (if n.val.hi > a1 then n.val.hi else a1)
    requires n.key <= a1 + 1 && a0 <= n.val.hi + 1
    ensures forall ip: nat :: b0 <= ip <= b1 <==> lo <= ip <= hi || Covered(e', ip)
  {
    forall ip: nat
      ensures b0 <= ip <= b1 <==> lo <= ip <= hi || Covered(e', ip)
    {
      if Covered(e', ip) && !Contains(n, ip) {
        var x :| x in e' && Contains(x, ip);
        assert Covered(e, ip);
      }
      if Covered(e, ip) {
        var x :| x in e && Contains(x, ip);
        assert x in e';
      }
      if Contains(n, ip) {
        assert n in e';
      }
    }
  }

  /** After the loop: the final insertion and what it means. */
  lemma LoopEnd(w: nat, t: Store, lo: nat, hi: nat, cc: nat, cur: Store, xs: seq<Item<Span>>,
                alloc: bool, t': Store)
    requires LoopInv(w, t, lo, hi, cc, cur, xs)
    requires var h := Hull(lo, hi, xs); FindNet(w, h.0, h.1, cc, cur).None?
    requires var h := Hull(lo, hi, xs); t' == Insert(cur, h.0, Span(h.1, cc), alloc).tree
    ensures Valid(t') && Bounded(w, Items(t'))
    ensures Disjoint(Items(t)) ==>
              var h := Hull(lo, hi, xs);
              (forall x :: x in Items(t) - Elems(xs) ==> !Mergeable(h.0, h.1, cc, x)) &&
              Items(t') == Items(t) - Elems(xs) + (if alloc then {Item(h.0, Span(h.1, cc))} else {}) &&
              Disjoint(Items(t'))
    ensures Disjoint(Items(t)) && alloc ==>
              forall ip: nat :: Covered(Items(t'), ip) <==> Covered(Items(t), ip) || lo <= ip <= hi
  {
    var h := Hull(lo, hi, xs);
    var hull := Item(h.0, Span(h.1, cc));
    InsertHull(w, cur, hull, alloc, t');
    if Disjoint(Items(t)) {
      assert Disjoint(Items(cur));
      FindNetComplete(w, h.0, h.1, cc, cur);
      HullIsFresh(w, cur, hull);
      if alloc {
        InsertedHullDisjoint(w, Items(cur), hull);
        Coverage(t, lo, hi, cc, xs, Items(cur), Items(t'));
      }
    }
  }

  /** The final insertion of the hull keeps the store well formed. */
  lemma InsertHull(w: nat, cur: Store, hull: Item<Span>, alloc: bool, t': Store)
    requires Valid(cur) && Bounded(w, Items(cur)) && hull.key <= hull.val.hi < w
    requires t' == Insert(cur, hull.key, hull.val, alloc).tree
    ensures Valid(t') && Bounded(w, Items(t'))
    ensures hull.key !in Keys(cur) ==>
              Items(t') == Items(cur) + (if alloc then {hull} else {})
  {
  }

  /** A hull that merges with nothing in the store does not share a key
      with it. */
  lemma HullIsFresh(w: nat, cur: Store, hull: Item<Span>)
    requires hull.key <= hull.val.hi && Bounded(w, Items(cur))
    requires forall x :: x in Items(cur) ==> !Mergeable(hull.key, hull.val.hi, hull.val.cc, x)
    ensures hull.key !in Keys(cur)
  {
    if hull.key in Keys(cur) {
      KeyHasItem(cur, hull.key);
      var x :| x in Items(cur) && x.key == hull.key;
      assert Mergeable(hull.key, hull.val.hi, hull.val.cc, x);
    }
  }

  lemma InsertedHullDisjoint(w: nat, s: set<Item<Span>>, hull: Item<Span>)
    requires Disjoint(s) && Bounded(w, s) && hull.key <= hull.val.hi
    requires forall x :: x in s ==> !Mergeable(hull.key, hull.val.hi, hull.val.cc, x)
    ensures Disjoint(s + {hull})
  {
    forall x, y | x in s + {hull} && y in s + {hull} && x.key < y.key
      ensures x.val.hi < y.key
    {
      if x == hull {
        assert !Mergeable(hull.key, hull.val.hi, hull.val.cc, y);
      } else if y == hull {
        assert !Mergeable(hull.key, hull.val.hi, hull.val.cc, x);
      }
    }
  }

  /** The store after the upsert covers what it covered before plus the
      incoming range. */
  lemma Coverage(t: Store, lo: nat, hi: nat, cc: nat, xs: seq<Item<Span>>,
                 rest: set<Item<Span>>, after: set<Item<Span>>)
    requires HullIsUnion(lo, hi, xs)
    requires Elems(xs) <= Items(t) && rest == Items(t) - Elems(xs)
    requires var h := Hull(lo, hi, xs); after == rest + {Item(h.0, Span(h.1, cc))}
    ensures forall ip: nat :: Covered(after, ip) <==> Covered(Items(t), ip) || lo <= ip <= hi
  {
    var h := Hull(lo, hi, xs);
    var hull := Item(h.0, Span(h.1, cc));
    forall ip: nat
      ensures Covered(after, ip) <==> Covered(Items(t), ip) || lo <= ip <= hi
    {
      if Covered(Items(t), ip) {
        var x :| x in Items(t) && Contains(x, ip);
        if x in Elems(xs) {
          assert Covered(Elems(xs), ip);
        } else {
          assert x in after;
        }
      }
      if Covered(after, ip) {
        var x :| x in after && Contains(x, ip);
        if x == hull {
          if !(lo <= ip <= hi) {
            assert Covered(Elems(xs), ip);
            var y :| y in Elems(xs) && Contains(y, ip);
            assert y in Items(t);
          }
        } else {
          assert x in Items(t);
        }
      }
      if lo <= ip <= hi {
        assert Contains(hull, ip);
      }
    }
  }

  lemma BoundedSubset(w: nat, a: set<Item<Span>>, b: set<Item<Span>>)
    requires Bounded(w, a) && b <= a
    ensures Bounded(w, b)
  {
  }

  /** Removing the key of a stored entry removes exactly that entry. */
  lemma RemoveOne(t: Store, n: Item<Span>)
    requires Valid(t) && n in Items(t)
    ensures Items(Remove(t, n.key).tree) == Items(t) - {n}
    ensures |Items(Remove(t, n.key).tree)| < |Items(t)|
  {
    UniqueKeys(t);
    assert WithoutKey(Items(t), n.key) == Items(t) - {n};
  }
  /** The tag decides only for ranges that touch: against a stored [10, 20]
      tagged 1, an incoming [15, 25] overlaps and is absorbed whatever its
      tag, widening to [10, 25]; an incoming [21, 30] is absorbed with tag 1
      and left apart with tag 2. */
  lemma TagDecidesAdjacency()
    ensures var t := Node(Leaf, 10, Span(20, 1), 0, Leaf);
            FindNet(W4, 15, 25, 1, t) == Some(Item(10, Span(20, 1))) &&
            FindNet(W4, 15, 25, 2, t) == Some(Item(10, Span(20, 1))) &&
            Hull(15, 25, [Item(10, Span(20, 1))]) == (10, 25) &&
            FindNet(W4, 21, 30, 1, t) == Some(Item(10, Span(20, 1))) &&
            FindNet(W4, 21, 30, 2, t).None?
  {
    var t := Node(Leaf, 10, Span(20, 1), 0, Leaf);
    var x := Item(10, Span(20, 1));
    assert [x][..0] == [];
    NetTestMeansMergeable(W4, 21, 30, 2, x);
  }
}
