/**
 * The interval stores of store.c: an AVL tree whose nodes hold disjoint
 * address ranges [lo, hi] keyed by lo, each tagged with a country code.
 * The IPv4 store (uint32 bounds) and the IPv6 store (uint128 bounds) run
 * the same code; the model takes the size `w` of the address space as a
 * parameter (2^32 or 2^128) so that the wrap-around of the unsigned
 * arithmetic in findNet4Node/findNet6Node is explicit.
 */
module Ranges {
  import opened Opt
  import opened Avl

  /** The payload of an IP4Node/IP6Node: the upper bound and the tag. */
  datatype Span = Span(hi: nat, cc: nat)

  type Store = Tree<Span>

  const W4: nat := 0x1_0000_0000
  const W6: nat := 0x1_0000_0000_0000_0000_0000_0000_0000_0000

  predicate Contains(x: Item<Span>, ip: nat) {
    x.key <= ip <= x.val.hi
  }

  /** Every range is non-empty and lies inside the address space. */
  ghost predicate Bounded(w: nat, s: set<Item<Span>>) {
    forall x :: x in s ==> x.key <= x.val.hi < w
  }

  /** Ranges with smaller lower bounds end before the next one begins. */
  ghost predicate Disjoint(s: set<Item<Span>>) {
    forall x, y :: x in s && y in s && x.key < y.key ==> x.val.hi < y.key
  }

  /** The well-formed stores: an AVL search tree of disjoint in-range ranges. */
  ghost predicate Good(w: nat, t: Store) {
    Valid(t) && Bounded(w, Items(t)) && Disjoint(Items(t))
  }

  ghost predicate Covered(s: set<Item<Span>>, ip: nat) {
    exists x :: x in s && Contains(x, ip)
  }

  /**
   * store.c findIP4Node (and findIP6Node): descends by comparing `ip` with
   * each node's bounds and returns the first range that contains it.
   */
  function Find(ip: nat, t: Store): (r: Option<Item<Span>>)
    ensures r.Some? ==> r.value in Items(t) && Contains(r.value, ip)
  {
    match t
    case Leaf => None
    case Node(l, lo, v, _, rt) =>
      if lo <= ip && ip <= v.hi then Some(Item(lo, v))
      else if ip < lo then Find(ip, l)
      else Find(ip, rt)
  }

  /** On a search tree of disjoint ranges, Find misses only when no stored
      range contains the address. */
  lemma {:induction false} FindComplete(ip: nat, t: Store)
    requires Bst(t) && Disjoint(Items(t))
    ensures Find(ip, t).None? <==> !Covered(Items(t), ip)
  {
    match t
    case Leaf =>
    case Node(l, lo, v, b, rt) =>
      ItemKeys(l);
      ItemKeys(rt);
      assert Items(t) == Items(l) + {Item(lo, v)} + Items(rt);
      if lo <= ip && ip <= v.hi {
        assert Contains(Item(lo, v), ip);
      } else if ip < lo {
        FindComplete(ip, l);
        assert forall x :: x in Items(rt) ==> !Contains(x, ip);
      } else {
        FindComplete(ip, rt);
        assert forall x :: x in Items(l) ==> x.key < lo && !Contains(x, ip);
      }
  }

  /** Unsigned subtraction and addition of a small offset in a `w`-element
      address space: uint32/uint128 arithmetic wraps around. */
  function SubWrap(w: nat, x: nat, d: nat): (r: nat)
    requires x < w && d <= 1
    ensures r < w && (r + d) % w == x
  {
    if d <= x then x - d else x + w - d
  }

  function AddWrap(w: nat, x: nat, d: nat): (r: nat)
    requires x < w && d <= 1
    ensures r < w && (x + d) % w == r
  {
    if x + d < w then x + d else x + d - w
  }

  /** The `ofs` of findNet4Node: ranges with the same tag also merge when
      they merely touch. */
  function Ofs(cc: nat, x: Item<Span>): nat {
    if cc == x.val.cc then 1 else 0
  }

  /** The test at store.c:337, with the source's wrapping arithmetic. */
  predicate NetTest(w: nat, lo: nat, hi: nat, cc: nat, x: Item<Span>)
    requires lo < w && hi < w
  {
    var ofs := Ofs(cc, x);
    (x.key <= lo && SubWrap(w, lo, ofs) <= x.val.hi) ||
    (x.key <= AddWrap(w, hi, ofs) && hi <= x.val.hi) ||
    (lo <= x.key && x.val.hi <= hi)
  }

  /** What the test means: the stored range overlaps [lo, hi], or, when the
      tags agree, abuts it. */
  predicate Mergeable(lo: nat, hi: nat, cc: nat, x: Item<Span>) {
    x.key <= hi + Ofs(cc, x) && lo <= x.val.hi + Ofs(cc, x)
  }

  /** The wrapped lo-1 and hi+1 at the ends of the address space never make
      the test report a range that cannot be merged, nor miss one. */
  lemma NetTestMeansMergeable(w: nat, lo: nat, hi: nat, cc: nat, x: Item<Span>)
    requires lo <= hi < w && x.key <= x.val.hi < w
    ensures NetTest(w, lo, hi, cc, x) <==> Mergeable(lo, hi, cc, x)
  {
  }

  /**
   * store.c findNet4Node (and findNet6Node): the first range on the search
   * path for `lo` that passes the merge test.
   */
  function FindNet(w: nat, lo: nat, hi: nat, cc: nat, t: Store): (r: Option<Item<Span>>)
    requires lo < w && hi < w
    ensures r.Some? ==> r.value in Items(t) && NetTest(w, lo, hi, cc, r.value)
  {
    match t
    case Leaf => None
    case Node(l, k, v, _, rt) =>
      if NetTest(w, lo, hi, cc, Item(k, v)) then Some(Item(k, v))
      else if lo < k then FindNet(w, lo, hi, cc, l)
      else FindNet(w, lo, hi, cc, rt)
  }

  /** On a search tree of disjoint ranges, FindNet reports a mergeable range
      whenever there is one. */
  lemma {:induction false} FindNetComplete(w: nat, lo: nat, hi: nat, cc: nat, t: Store)
    requires lo <= hi < w && Bst(t) && Disjoint(Items(t)) && Bounded(w, Items(t))
    ensures FindNet(w, lo, hi, cc, t).None? <==>
              forall x :: x in Items(t) ==> !Mergeable(lo, hi, cc, x)
  {
    match t
    case Leaf =>
    case Node(l, k, v, b, rt) =>
      ItemKeys(l);
      ItemKeys(rt);
      var n := Item(k, v);
      assert Items(t) == Items(l) + {n} + Items(rt);
      NetTestMeansMergeable(w, lo, hi, cc, n);
      if NetTest(w, lo, hi, cc, n) {
      } else if lo < k {
        FindNetComplete(w, lo, hi, cc, l);
        assert forall x :: x in Items(rt) ==> n.val.hi < x.key;
        RightApart(lo, hi, cc, n, Items(rt));
      } else {
        FindNetComplete(w, lo, hi, cc, rt);
        assert forall x :: x in Items(l) ==> x.val.hi < n.key;
        LeftApart(lo, hi, cc, n, Items(l));
      }
  }

  /** When [lo, hi] starts left of a range it cannot merge with, it cannot
      merge with any range further right either. */
  lemma RightApart(lo: nat, hi: nat, cc: nat, n: Item<Span>, rest: set<Item<Span>>)
    requires lo <= hi && lo < n.key <= n.val.hi && !Mergeable(lo, hi, cc, n)
    requires forall x :: x in rest ==> n.val.hi < x.key
    ensures forall x :: x in rest ==> !Mergeable(lo, hi, cc, x)
  {
  }

  /** When [lo, hi] starts at or right of a range it cannot merge with, it
      cannot merge with any range further left either. */
  lemma LeftApart(lo: nat, hi: nat, cc: nat, n: Item<Span>, rest: set<Item<Span>>)
    requires n.key <= lo <= hi && n.key <= n.val.hi && !Mergeable(lo, hi, cc, n)
    requires forall x :: x in rest ==> x.val.hi < n.key
    ensures forall x :: x in rest ==> !Mergeable(lo, hi, cc, x)
  {
  }
}
