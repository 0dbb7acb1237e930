/**
 * Height-balanced (AVL) binary search trees.
 *
 * store.c keeps three textually identical copies of the same AVL code: one
 * for IPv4 range nodes, one for IPv6 range nodes and one for country-code
 * nodes.  They differ only in the key type and the payload, so the model
 * keeps one generic tree: `key` is the search key (the range's lower bound,
 * or the country code) and `val` the payload.  `B` is the balance factor
 * that the source stores in every node; the model keeps it as stored data
 * and proves separately that it agrees with the actual heights.
 *
 * Every pointer-rewiring operation of the source becomes a pure function
 * returning the new subtree together with the integer flag the source
 * returns (a height change).
 */
module Avl {
  import opened Opt

  /** One stored entry: the search key and its payload. */
  datatype Item<V> = Item(key: nat, val: V)

  datatype Tree<V> =
    | Leaf
    | Node(L: Tree<V>, key: nat, val: V, B: int, R: Tree<V>)

  /** A rebuilt subtree and the flag the source returns with it. */
  datatype Fix<V> = Fix(tree: Tree<V>, changed: bool)

  /** What pickPrev/pickNext hand back: the remaining subtree, the entry
      taken out of it, and whether the subtree became lower. */
  datatype Picked<V> = Picked(rest: Tree<V>, item: Item<V>, shrunk: bool)

  function Max(a: nat, b: nat): nat { if a < b then b else a }

  ghost function Height<V>(t: Tree<V>): nat {
    match t
    case Leaf => 0
    case Node(l, _, _, _, r) => 1 + Max(Height(l), Height(r))
  }

  /** The AVL invariant: every stored balance factor is the actual height
      difference right minus left, and it lies in -1..1. */
  ghost predicate Balanced<V>(t: Tree<V>) {
    match t
    case Leaf => true
    case Node(l, _, _, b, r) =>
      Balanced(l) && Balanced(r) && b == Height(r) - Height(l) && -1 <= b <= 1
  }

  /** The entries in ascending traversal order (left, node, right). */
  function InOrder<V>(t: Tree<V>): seq<Item<V>> {
    match t
    case Leaf => []
    case Node(l, k, v, _, r) => InOrder(l) + [Item(k, v)] + InOrder(r)
  }

  ghost function Items<V>(t: Tree<V>): set<Item<V>> {
    match t
    case Leaf => {}
    case Node(l, k, v, _, r) => Items(l) + {Item(k, v)} + Items(r)
  }

  ghost function Keys<V>(t: Tree<V>): set<nat> {
    match t
    case Leaf => {}
    case Node(l, k, _, _, r) => Keys(l) + {k} + Keys(r)
  }

  /** Search-tree order: smaller keys to the left, larger to the right. */
  ghost predicate Bst<V>(t: Tree<V>) {
    match t
    case Leaf => true
    case Node(l, k, _, _, r) =>
      Bst(l) && Bst(r) &&
      (forall x :: x in Keys(l) ==> x < k) &&
      (forall x :: x in Keys(r) ==> k < x)
  }

  /** The well-formed trees every operation of the source keeps. */
  ghost predicate Valid<V>(t: Tree<V>) {
    Balanced(t) && Bst(t)
  }

  /** The items of a set other than the one stored under `k`. */
  ghost function WithoutKey<V>(s: set<Item<V>>, k: nat): set<Item<V>> {
    set x | x in s && x.key != k
  }

  /** The node shapes on which balance() dereferences only present
      children: a double rotation needs the inner grandchild. */
  predicate CanBalance<V>(t: Tree<V>) {
    t.Node? &&
    (t.B == -2 && t.L.Node? && t.L.B == 1 ==> t.L.R.Node?) &&
    (t.B == 2 && t.R.Node? && t.R.B == -1 ==> t.R.L.Node?)
  }

  /** A node whose children are AVL trees and whose stored balance factor
      is the actual height difference, which is off by one from the AVL
      range: the situation balance() repairs. */
  ghost predicate OutOfBalance<V>(t: Tree<V>) {
    t.Node? && Balanced(t.L) && Balanced(t.R) &&
    t.B == Height(t.R) - Height(t.L) && (t.B == -2 || t.B == 2)
  }

  /**
   * store.c balanceIP4Node: a single or double rotation at a node whose
   * balance factor is -2 or +2; any other node is returned as it is.
   * `changed` is the source's return value: the rotation made the subtree
   * one lower.
   */
  function Balance<V>(t: Tree<V>): (r: Fix<V>)
    requires CanBalance(t)
    ensures InOrder(r.tree) == InOrder(t)
    ensures Items(r.tree) == Items(t) && Keys(r.tree) == Keys(t)
    ensures Bst(t) ==> Bst(r.tree)
    ensures -2 < t.B < 2 ==> r == Fix(t, false)
    ensures OutOfBalance(t) ==>
              Balanced(r.tree) &&
              Height(r.tree) == Height(t) - (if r.changed then 1 else 0) &&
              (r.changed <==> (if t.B < 0 then t.L.B else t.R.B) != 0)
  {
    if t.B == -2 then RotateRight(t)
    else if t.B == 2 then RotateLeft(t)
    else Fix(t, false)
  }

  /** balanceIP4Node at a node that is two levels heavier on the left. */
  function RotateRight<V>(t: Tree<V>): (r: Fix<V>)
    requires CanBalance(t) && t.B == -2
    ensures InOrder(r.tree) == InOrder(t)
    ensures Items(r.tree) == Items(t) && Keys(r.tree) == Keys(t)
    ensures Bst(t) ==> Bst(r.tree)
    ensures OutOfBalance(t) ==>
              Balanced(r.tree) &&
              Height(r.tree) == Height(t) - (if r.changed then 1 else 0) &&
              (r.changed <==> t.L.B != 0)
  {
    var Node(l, k, v, b, rt) := t;
    if l.Leaf? then Fix(t, false)
    else if l.B == 1 then
      // double rotation: the left child's right child becomes the root
      var q := l.R;
      var p' := Node(l.L, l.key, l.val, if q.B > 0 then -1 else 0, q.L);
      var o' := Node(q.R, k, v, if q.B < 0 then 1 else 0, rt);
      var u := Node(p', q.key, q.val, 0, o');
      DoubleRotationKeepsOrder(l.L, Item(l.key, l.val), q.L, Item(q.key, q.val), q.R,
                               Item(k, v), rt, l.B, q.B, b, p'.B, 0, o'.B, 0);
      DoubleRightRebalances(t, u);
      Fix(u, true)
    else
      // single rotation: the left child becomes the root
      var pb := l.B + 1;
      var u := Node(l.L, l.key, l.val, pb, Node(l.R, k, v, -pb, rt));
      RotationKeepsOrder(l.L, Item(l.key, l.val), l.R, Item(k, v), rt, l.B, b, pb, -pb);
      SingleRightRebalances(t, u);
      Fix(u, l.B != 0)
  }

  /** balanceIP4Node at a node that is two levels heavier on the right. */
  function RotateLeft<V>(t: Tree<V>): (r: Fix<V>)
    requires CanBalance(t) && t.B == 2
    ensures InOrder(r.tree) == InOrder(t)
    ensures Items(r.tree) == Items(t) && Keys(r.tree) == Keys(t)
    ensures Bst(t) ==> Bst(r.tree)
    ensures OutOfBalance(t) ==>
              Balanced(r.tree) &&
              Height(r.tree) == Height(t) - (if r.changed then 1 else 0) &&
              (r.changed <==> t.R.B != 0)
  {
    var Node(l, k, v, b, rt) := t;
    if rt.Leaf? then Fix(t, false)
    else if rt.B == -1 then
      // double rotation: the right child's left child becomes the root
      var p := rt.L;
      var q' := Node(p.R, rt.key, rt.val, if p.B < 0 then 1 else 0, rt.R);
      var o' := Node(l, k, v, if p.B > 0 then -1 else 0, p.L);
      var u := Node(o', p.key, p.val, 0, q');
      DoubleRotationKeepsOrder(l, Item(k, v), p.L, Item(p.key, p.val), p.R,
                               Item(rt.key, rt.val), rt.R, 0, p.B, rt.B, o'.B, 0, q'.B, b);
      DoubleLeftRebalances(t, u);
      Fix(u, true)
    else
      // single rotation: the right child becomes the root
      var qb := rt.B - 1;
      var u := Node(Node(l, k, v, -qb, rt.L), rt.key, rt.val, qb, rt.R);
      RotationKeepsOrder(l, Item(k, v), rt.L, Item(rt.key, rt.val), rt.R, -qb, qb, b, rt.B);
      SingleLeftRebalances(t, u);
      Fix(u, rt.B != 0)
  }

  lemma SingleRightRebalances<V>(t: Tree<V>, u: Tree<V>)
    requires t.Node? && t.L.Node? && u.Node? && u.R.Node?
    requires u.L == t.L.L && u.R.L == t.L.R && u.R.R == t.R
    requires u.B == t.L.B + 1 && u.R.B == -(t.L.B + 1)
    ensures OutOfBalance(t) && t.B == -2 && t.L.B != 1 ==>
              Balanced(u) && Height(u) == Height(t) - (if t.L.B != 0 then 1 else 0)
  {
    if OutOfBalance(t) && t.B == -2 && t.L.B != 1 {
      var ha, hb, hc := Height(t.L.L), Height(t.L.R), Height(t.R);
      assert hb == ha + t.L.B && Height(t.L) == ha + 1 && hc == ha - 1;
      assert Balanced(u.R) && Height(u.R) == hb + 1;
      assert Balanced(u.L) && Height(u.L) == ha;
      assert Balanced(u);
      assert Height(u) == 1 + Max(ha, hb + 1);
    }
  }

  lemma SingleLeftRebalances<V>(t: Tree<V>, u: Tree<V>)
    requires t.Node? && t.R.Node? && u.Node? && u.L.Node?
    requires u.L.L == t.L && u.L.R == t.R.L && u.R == t.R.R
    requires u.B == t.R.B - 1 && u.L.B == -(t.R.B - 1)
    ensures OutOfBalance(t) && t.B == 2 && t.R.B != -1 ==>
              Balanced(u) && Height(u) == Height(t) - (if t.R.B != 0 then 1 else 0)
  {
    if OutOfBalance(t) && t.B == 2 && t.R.B != -1 {
      var ha, hb, hc := Height(t.L), Height(t.R.L), Height(t.R.R);
      assert hb == hc - t.R.B && Height(t.R) == hc + 1 && ha == hc - 1;
      assert Balanced(u.L) && Height(u.L) == hb + 1;
      assert Balanced(u.R) && Height(u.R) == hc;
      assert Balanced(u);
      assert Height(u) == 1 + Max(hb + 1, hc);
    }
  }

  /** A single rotation keeps the traversal order and the search order:
      Node(Node(a, x, c), y, d) and Node(a, x, Node(c, y, d)) hold the same
      entries in the same order, whatever their balance factors. */
  lemma RotationKeepsOrder<V>(a: Tree<V>, x: Item<V>, c: Tree<V>, y: Item<V>, d: Tree<V>,
                              b1: int, b2: int, b3: int, b4: int)
    ensures var t := Node(Node(a, x.key, x.val, b1, c), y.key, y.val, b2, d);
            var u := Node(a, x.key, x.val, b3, Node(c, y.key, y.val, b4, d));
            InOrder(u) == InOrder(t) && Items(u) == Items(t) && Keys(u) == Keys(t) &&
            (Bst(t) <==> Bst(u))
  {
    var t := Node(Node(a, x.key, x.val, b1, c), y.key, y.val, b2, d);
    var u := Node(a, x.key, x.val, b3, Node(c, y.key, y.val, b4, d));
    assert InOrder(u) == InOrder(a) + [x] + (InOrder(c) + [y] + InOrder(d));
    assert InOrder(t) == (InOrder(a) + [x] + InOrder(c)) + [y] + InOrder(d);
    RotationKeepsSearchOrder(a, x, c, y, d, b1, b2, b3, b4);
  }

  lemma RotationKeepsSearchOrder<V>(a: Tree<V>, x: Item<V>, c: Tree<V>, y: Item<V>, d: Tree<V>,
                                    b1: int, b2: int, b3: int, b4: int)
    ensures var t := Node(Node(a, x.key, x.val, b1, c), y.key, y.val, b2, d);
            var u := Node(a, x.key, x.val, b3, Node(c, y.key, y.val, b4, d));
            Bst(t) <==> Bst(u)
  {
    var t := Node(Node(a, x.key, x.val, b1, c), y.key, y.val, b2, d);
    var u := Node(a, x.key, x.val, b3, Node(c, y.key, y.val, b4, d));
    assert Keys(t.L) == Keys(a) + {x.key} + Keys(c);
    assert Keys(u.R) == Keys(c) + {y.key} + Keys(d);
    if Bst(t) {
      assert Bst(t.L);
      assert forall z :: z in Keys(c) ==> x.key < z < y.key;
      assert Bst(u.R);
    }
    if Bst(u) {
      assert Bst(u.R);
      assert forall z :: z in Keys(c) ==> x.key < z < y.key;
      assert Bst(t.L);
    }
  }

  /** A double rotation keeps the traversal order and the search order:
      Node(Node(a, x, Node(b, y, c)), z, d), Node(Node(a, x, b), y, Node(c, z, d))
      and Node(a, x, Node(Node(b, y, c), z, d)) hold the same entries. */
  lemma DoubleRotationKeepsOrder<V>(a: Tree<V>, x: Item<V>, b: Tree<V>, y: Item<V>, c: Tree<V>,
                                    z: Item<V>, d: Tree<V>, b1: int, b2: int, b3: int, b4: int,
                                    b5: int, b6: int, b7: int)
    ensures var t := Node(Node(a, x.key, x.val, b1, Node(b, y.key, y.val, b2, c)), z.key, z.val, b3, d);
            var u := Node(Node(a, x.key, x.val, b4, b), y.key, y.val, b5, Node(c, z.key, z.val, b6, d));
            var w := Node(a, x.key, x.val, b7, Node(Node(b, y.key, y.val, b2, c), z.key, z.val, b3, d));
            InOrder(u) == InOrder(t) && Items(u) == Items(t) && Keys(u) == Keys(t) &&
            InOrder(w) == InOrder(t) && Items(w) == Items(t) && Keys(w) == Keys(t) &&
            (Bst(t) ==> Bst(u)) && (Bst(w) ==> Bst(u))
  {
    var t := Node(Node(a, x.key, x.val, b1, Node(b, y.key, y.val, b2, c)), z.key, z.val, b3, d);
    var m := Node(Node(a, x.key, x.val, b4, b), y.key, y.val, b2, c);
    // rotating t.L to the left, then the whole to the right, yields u
    RotationKeepsOrder(a, x, b, y, c, b4, b2, b1, b2);
    SameOrderSameBst(t.L, m, z, b3, d);
    RotationKeepsOrder(m.L, y, c, z, d, b2, b3, b5, b6);
    // w is t rotated once to the left
    RotationKeepsOrder(a, x, Node(b, y.key, y.val, b2, c), z, d, b1, b3, b7, b3);
  }

  /** Replacing a left subtree by one with the same entries keeps the parent
      a search tree. */
  lemma SameOrderSameBst<V>(l: Tree<V>, m: Tree<V>, z: Item<V>, b: int, d: Tree<V>)
    requires Keys(l) == Keys(m) && Items(l) == Items(m) && InOrder(l) == InOrder(m)
    requires Bst(l) ==> Bst(m)
    ensures InOrder(Node(l, z.key, z.val, b, d)) == InOrder(Node(m, z.key, z.val, b, d))
    ensures Items(Node(l, z.key, z.val, b, d)) == Items(Node(m, z.key, z.val, b, d))
    ensures Keys(Node(l, z.key, z.val, b, d)) == Keys(Node(m, z.key, z.val, b, d))
    ensures Bst(Node(l, z.key, z.val, b, d)) ==> Bst(Node(m, z.key, z.val, b, d))
  {
  }

  lemma DoubleRightRebalances<V>(t: Tree<V>, u: Tree<V>)
    requires t.Node? && t.L.Node? && t.L.R.Node? && u.Node? && u.L.Node? && u.R.Node?
    requires u.L.L == t.L.L && u.L.R == t.L.R.L && u.R.L == t.L.R.R && u.R.R == t.R
    requires u.B == 0
    requires u.L.B == (if t.L.R.B > 0 then -1 else 0)
    requires u.R.B == (if t.L.R.B < 0 then 1 else 0)
    ensures OutOfBalance(t) && t.B == -2 && t.L.B == 1 ==>
              Balanced(u) && Height(u) == Height(t) - 1
  {
    if OutOfBalance(t) && t.B == -2 && t.L.B == 1 {
      var q := t.L.R;
      assert Balanced(q);
    }
  }

  lemma DoubleLeftRebalances<V>(t: Tree<V>, u: Tree<V>)
    requires t.Node? && t.R.Node? && t.R.L.Node? && u.Node? && u.L.Node? && u.R.Node?
    requires u.L.L == t.L && u.L.R == t.R.L.L && u.R.L == t.R.L.R && u.R.R == t.R.R
    requires u.B == 0
    requires u.L.B == (if t.R.L.B > 0 then -1 else 0)
    requires u.R.B == (if t.R.L.B < 0 then 1 else 0)
    ensures OutOfBalance(t) && t.B == 2 && t.R.B == -1 ==>
              Balanced(u) && Height(u) == Height(t) - 1
  {
    if OutOfBalance(t) && t.B == 2 && t.R.B == -1 {
      var p := t.R.L;
      assert Balanced(p);
    }
  }

  /** The height a node had before one child changed height by `d`
      (`side` -1 for the left child, +1 for the right one). */
  ghost function HeightBefore<V>(o: Tree<V>, side: int, d: int): int
    requires o.Node?
  {
    var hl := Height(o.L) - (if side == -1 then d else 0);
    var hr := Height(o.R) - (if side == 1 then d else 0);
    1 + (if hl < hr then hr else hl)
  }

  /**
   * The tail of addIP4Node after a recursive call: `change` is -1 when the
   * left child grew, +1 when the right child grew, 0 otherwise.  `o` is the
   * node with the new child but the old balance factor.
   */
  function Grown<V>(o: Tree<V>, change: int): (r: Fix<V>)
    requires o.Node? && -1 <= change <= 1
    requires Balanced(o.L) && Balanced(o.R) && -1 <= o.B <= 1
    requires o.B + change == Height(o.R) - Height(o.L)
    requires change == -1 ==> o.L.Node? && (o.L.B != 0 || Height(o.L) == 1)
    requires change == 1 ==> o.R.Node? && (o.R.B != 0 || Height(o.R) == 1)
    ensures InOrder(r.tree) == InOrder(o)
    ensures Items(r.tree) == Items(o) && Keys(r.tree) == Keys(o)
    ensures Bst(o) ==> Bst(r.tree)
    ensures Balanced(r.tree)
    ensures Height(r.tree) == HeightBefore(o, change, 1) + (if r.changed then 1 else 0)
    ensures r.changed ==> change != 0 && r.tree.Node? && r.tree.B != 0
    ensures change == 0 ==> r == Fix(o, false)
  {
    if change != 0 then
      var b := o.B + change;
      if b < -1 || 1 < b then
        var f := Balance(o.(B := b));
        Fix(f.tree, !f.changed)
      else
        Fix(o.(B := b), b != 0)
    else
      Fix(o, false)
  }

  /**
   * The tail shared by removeIP4Node, pickPrev and pickNext after a
   * recursive call: `change` is +1 when the left child shrank, -1 when the
   * right child shrank, 0 otherwise.
   */
  function Shrunk<V>(o: Tree<V>, change: int): (r: Fix<V>)
    requires o.Node? && -1 <= change <= 1
    requires Balanced(o.L) && Balanced(o.R) && -1 <= o.B <= 1
    requires o.B + change == Height(o.R) - Height(o.L)
    ensures InOrder(r.tree) == InOrder(o)
    ensures Items(r.tree) == Items(o) && Keys(r.tree) == Keys(o)
    ensures Bst(o) ==> Bst(r.tree)
    ensures Balanced(r.tree)
    ensures Height(r.tree) == HeightBefore(o, -change, -1) - (if r.changed then 1 else 0)
    ensures r.changed ==> change != 0
  {
    if change != 0 then
      var b := o.B + change;
      if b < -1 || 1 < b then
        Balance(o.(B := b))
      else
        Fix(o.(B := b), b == 0)
    else
      Fix(o, false)
  }

  /**
   * store.c pickPrevIP4Node: takes the rightmost entry out of a non-empty
   * subtree, rebalancing on the way back up.  The entry is the in-order
   * predecessor that removeIP4Node moves into the place of a removed node.
   */
  function PickPrev<V>(t: Tree<V>): (r: Picked<V>)
    requires t.Node? && Balanced(t)
    ensures Balanced(r.rest)
    ensures Height(r.rest) == Height(t) - (if r.shrunk then 1 else 0)
    ensures InOrder(r.rest) + [r.item] == InOrder(t)
    ensures Items(r.rest) + {r.item} == Items(t) && Keys(r.rest) + {r.item.key} == Keys(t)
    ensures Bst(t) ==> Bst(r.rest) && forall x :: x in Keys(r.rest) ==> x < r.item.key
  {
    if t.R.Node? then
      PrevUp(t, PickPrev(t.R))
    else if t.L.Node? then
      Picked(t.L, Item(t.key, t.val), t.L.B == 0)
    else
      Picked(Leaf, Item(t.key, t.val), true)
  }

  /** store.c pickNextIP4Node: the mirror image of PickPrev, taking the
      leftmost entry (the in-order successor). */
  function PickNext<V>(t: Tree<V>): (r: Picked<V>)
    requires t.Node? && Balanced(t)
    ensures Balanced(r.rest)
    ensures Height(r.rest) == Height(t) - (if r.shrunk then 1 else 0)
    ensures [r.item] + InOrder(r.rest) == InOrder(t)
    ensures Items(r.rest) + {r.item} == Items(t) && Keys(r.rest) + {r.item.key} == Keys(t)
    ensures Bst(t) ==> Bst(r.rest) && forall x :: x in Keys(r.rest) ==> r.item.key < x
  {
    if t.L.Node? then
      NextUp(t, PickNext(t.L))
    else if t.R.Node? then
      Picked(t.R, Item(t.key, t.val), t.R.B == 0)
    else
      Picked(Leaf, Item(t.key, t.val), true)
  }

  /**
   * store.c addIP4Node (and addIP6Node, addCCNode): inserts `k` with payload
   * `v` unless a node with that key exists, in which case nothing changes.
   * `alloc` is whether the allocator hands out the new leaf; when it does
   * not, nothing changes either.  `changed` is the source's return value:
   * the subtree grew by one level.
   */
  /** What addIP4Node promises: the result is an AVL tree one level higher
      exactly when `changed` says so, a fresh key is added when the node is
      allocated, and in every other case nothing changes. */
  ghost predicate Added<V>(t: Tree<V>, k: nat, v: V, alloc: bool, r: Fix<V>) {
    Balanced(r.tree) &&
    Height(r.tree) == Height(t) + (if r.changed then 1 else 0) &&
    (r.changed ==> r.tree.Node? && (r.tree.B != 0 || Height(r.tree) == 1)) &&
    (!alloc ==> r == Fix(t, false)) &&
    (Bst(t) && k in Keys(t) ==> r == Fix(t, false)) &&
    (Bst(t) && alloc && k !in Keys(t) ==>
       Items(r.tree) == Items(t) + {Item(k, v)} && Keys(r.tree) == Keys(t) + {k}) &&
    (Bst(t) ==> Bst(r.tree))
  }

  function Insert<V>(t: Tree<V>, k: nat, v: V, alloc: bool): (r: Fix<V>)
    requires Balanced(t)
    ensures Added(t, k, v, alloc, r)
  {
    match t
    case Leaf =>
      if alloc then Fix(Node(Leaf, k, v, 0, Leaf), true) else Fix(Leaf, false)
    case Node(l, key, _, _, rt) =>
      if k < key then InsertedLeft(t, k, v, alloc, Insert(l, k, v, alloc))
      else if k > key then InsertedRight(t, k, v, alloc, Insert(rt, k, v, alloc))
      else Fix(t, false)
  }

  /** The way back up addIP4Node after inserting into the left subtree. */
  function InsertedLeft<V>(t: Tree<V>, k: nat, v: V, alloc: bool, c: Fix<V>): (r: Fix<V>)
    requires t.Node? && Balanced(t) && k < t.key
    requires Added(t.L, k, v, alloc, c)
    ensures Added(t, k, v, alloc, r)
  {
    InsertedBelow(t, k, v, alloc, c.tree, c.changed, true);
    var g := Grown(Node(c.tree, t.key, t.val, t.B, t.R), if c.changed then -1 else 0);
    InsertedLeftHeight(t, c, g);
    g
  }

  lemma InsertedLeftHeight<V>(t: Tree<V>, c: Fix<V>, g: Fix<V>)
    requires t.Node?
    requires Height(c.tree) == Height(t.L) + (if c.changed then 1 else 0)
    requires Height(g.tree) ==
               HeightBefore(Node(c.tree, t.key, t.val, t.B, t.R), if c.changed then -1 else 0, 1) +
               (if g.changed then 1 else 0)
    requires g.changed ==> g.tree.Node? && g.tree.B != 0
    ensures Height(g.tree) == Height(t) + (if g.changed then 1 else 0)
    ensures g.changed ==> g.tree.Node? && (g.tree.B != 0 || Height(g.tree) == 1)
  {
  }

  /** The way back up addIP4Node after inserting into the right subtree. */
  function InsertedRight<V>(t: Tree<V>, k: nat, v: V, alloc: bool, c: Fix<V>): (r: Fix<V>)
    requires t.Node? && Balanced(t) && t.key < k
    requires Added(t.R, k, v, alloc, c)
    ensures Added(t, k, v, alloc, r)
  {
    InsertedBelow(t, k, v, alloc, c.tree, c.changed, false);
    var g := Grown(Node(t.L, t.key, t.val, t.B, c.tree), if c.changed then 1 else 0);
    InsertedRightHeight(t, c, g);
    g
  }

  lemma InsertedRightHeight<V>(t: Tree<V>, c: Fix<V>, g: Fix<V>)
    requires t.Node?
    requires Height(c.tree) == Height(t.R) + (if c.changed then 1 else 0)
    requires Height(g.tree) ==
               HeightBefore(Node(t.L, t.key, t.val, t.B, c.tree), if c.changed then 1 else 0, 1) +
               (if g.changed then 1 else 0)
    requires g.changed ==> g.tree.Node? && g.tree.B != 0
    ensures Height(g.tree) == Height(t) + (if g.changed then 1 else 0)
    ensures g.changed ==> g.tree.Node? && (g.tree.B != 0 || Height(g.tree) == 1)
  {
  }

  /**
   * store.c removeIP4Node (and removeIP6Node, removeCCNode): removes the
   * node whose key is `k`, if there is one.  `changed` is the source's
   * return value: the subtree became one level lower.
   */
  function Remove<V>(t: Tree<V>, k: nat): (r: Fix<V>)
    requires Balanced(t)
    ensures Balanced(r.tree)
    ensures Height(r.tree) == Height(t) - (if r.changed then 1 else 0)
    ensures Bst(t) && k !in Keys(t) ==> r == Fix(t, false)
    ensures Bst(t) ==>
              Bst(r.tree) && Items(r.tree) == WithoutKey(Items(t), k) && Keys(r.tree) == Keys(t) - {k}
  {
    match t
    case Leaf => Fix(Leaf, false)
    case Node(p, key, _, _, q) =>
      if k < key then RemovedLeft(t, k, Remove(p, k))
      else if k > key then RemovedRight(t, k, Remove(q, k))
      else RemovedRoot(t)
  }

  function RemovedLeft<V>(t: Tree<V>, k: nat, c: Fix<V>): (r: Fix<V>)
    requires t.Node? && Balanced(t) && k < t.key
    requires Balanced(c.tree)
    requires Height(c.tree) == Height(t.L) - (if c.changed then 1 else 0)
    requires Bst(t.L) && k !in Keys(t.L) ==> c == Fix(t.L, false)
    requires Bst(t.L) ==>
               Bst(c.tree) && Items(c.tree) == WithoutKey(Items(t.L), k) && Keys(c.tree) == Keys(t.L) - {k}
    ensures Balanced(r.tree)
    ensures Height(r.tree) == Height(t) - (if r.changed then 1 else 0)
    ensures Bst(t) && k !in Keys(t) ==> r == Fix(t, false)
    ensures Bst(t) ==>
              Bst(r.tree) && Items(r.tree) == WithoutKey(Items(t), k) && Keys(r.tree) == Keys(t) - {k}
  {
    var r := Shrunk(Node(c.tree, t.key, t.val, t.B, t.R), if c.changed then 1 else 0);
    RemovedLeftBelow(t, k, c, r);
    r
  }

  function RemovedRight<V>(t: Tree<V>, k: nat, c: Fix<V>): (r: Fix<V>)
    requires t.Node? && Balanced(t) && t.key < k
    requires Balanced(c.tree)
    requires Height(c.tree) == Height(t.R) - (if c.changed then 1 else 0)
    requires Bst(t.R) && k !in Keys(t.R) ==> c == Fix(t.R, false)
    requires Bst(t.R) ==>
               Bst(c.tree) && Items(c.tree) == WithoutKey(Items(t.R), k) && Keys(c.tree) == Keys(t.R) - {k}
    ensures Balanced(r.tree)
    ensures Height(r.tree) == Height(t) - (if r.changed then 1 else 0)
    ensures Bst(t) && k !in Keys(t) ==> r == Fix(t, false)
    ensures Bst(t) ==>
              Bst(r.tree) && Items(r.tree) == WithoutKey(Items(t), k) && Keys(r.tree) == Keys(t) - {k}
  {
    var r := Shrunk(Node(t.L, t.key, t.val, t.B, c.tree), if c.changed then -1 else 0);
    RemovedRightBelow(t, k, c, r);
    r
  }

  /** What a removal from the left subtree means for the node above it,
      once Shrunk has rebalanced it. */
  lemma RemovedLeftBelow<V>(t: Tree<V>, k: nat, c: Fix<V>, r: Fix<V>)
    requires t.Node? && k < t.key
    requires Bst(t.L) && k !in Keys(t.L) ==> c == Fix(t.L, false)
    requires Bst(t.L) ==> Bst(c.tree) && Items(c.tree) == WithoutKey(Items(t.L), k) && Keys(c.tree) == Keys(t.L) - {k}
    requires var o := Node(c.tree, t.key, t.val, t.B, t.R);
             Items(r.tree) == Items(o) && Keys(r.tree) == Keys(o) && (Bst(o) ==> Bst(r.tree)) &&
             (!c.changed ==> r == Fix(o, false))
    ensures Bst(t) && k !in Keys(t) ==> r == Fix(t, false)
    ensures Bst(t) ==>
              Bst(r.tree) && Items(r.tree) == WithoutKey(Items(t), k) && Keys(r.tree) == Keys(t) - {k}
  {
    if Bst(t) {
      ItemKeys(t.R);
      WithoutKeySplit(Items(t.L), Item(t.key, t.val), Items(t.R), k, true);
    }
  }

  /** Removing key `k` from the items of a node touches only the side
      that can hold `k`. */
  lemma WithoutKeySplit<V>(a: set<Item<V>>, i: Item<V>, b: set<Item<V>>, k: nat, left: bool)
    requires i.key != k
    requires left ==> forall x :: x in b ==> x.key != k
    requires !left ==> forall x :: x in a ==> x.key != k
    ensures left ==> WithoutKey(a + {i} + b, k) == WithoutKey(a, k) + {i} + b
    ensures !left ==> WithoutKey(a + {i} + b, k) == a + {i} + WithoutKey(b, k)
  {
  }

  /** The mirror image of RemovedLeftBelow. */
  lemma RemovedRightBelow<V>(t: Tree<V>, k: nat, c: Fix<V>, r: Fix<V>)
    requires t.Node? && t.key < k
    requires Bst(t.R) && k !in Keys(t.R) ==> c == Fix(t.R, false)
    requires Bst(t.R) ==> Bst(c.tree) && Items(c.tree) == WithoutKey(Items(t.R), k) && Keys(c.tree) == Keys(t.R) - {k}
    requires var o := Node(t.L, t.key, t.val, t.B, c.tree);
             Items(r.tree) == Items(o) && Keys(r.tree) == Keys(o) && (Bst(o) ==> Bst(r.tree)) &&
             (!c.changed ==> r == Fix(o, false))
    ensures Bst(t) && k !in Keys(t) ==> r == Fix(t, false)
    ensures Bst(t) ==>
              Bst(r.tree) && Items(r.tree) == WithoutKey(Items(t), k) && Keys(r.tree) == Keys(t) - {k}
  {
    if Bst(t) {
      ItemKeys(t.L);
      WithoutKeySplit(Items(t.L), Item(t.key, t.val), Items(t.R), k, false);
    }
  }

  /** removeIP4Node at the node holding the key: the node is replaced by
      its only child, or by its in-order neighbour on the side that is not
      lower. */
  function RemovedRoot<V>(t: Tree<V>): (r: Fix<V>)
    requires t.Node? && Balanced(t)
    ensures Balanced(r.tree)
    ensures Height(r.tree) == Height(t) - (if r.changed then 1 else 0)
    ensures InOrder(r.tree) == InOrder(t.L) + InOrder(t.R)
    ensures Items(r.tree) == Items(t.L) + Items(t.R) && Keys(r.tree) == Keys(t.L) + Keys(t.R)
    ensures Bst(t) ==> Bst(r.tree) && Items(r.tree) == WithoutKey(Items(t), t.key) && Keys(r.tree) == Keys(t) - {t.key}
  {
    var r :=
      if t.L.Leaf? || t.R.Leaf? then
        Fix(if t.L.Leaf? then t.R else t.L, true)
      else if t.B == -1 then
        ReplacedByPrev(t)
      else
        ReplacedByNext(t);
    RootRemoved(t, r.tree);
    r
  }

  /** A tree holding the entries of both subtrees of a search tree holds
      all of its entries except the root's. */
  lemma RootRemoved<V>(t: Tree<V>, u: Tree<V>)
    requires t.Node?
    requires Items(u) == Items(t.L) + Items(t.R) && Keys(u) == Keys(t.L) + Keys(t.R)
    ensures Bst(t) ==> Items(u) == WithoutKey(Items(t), t.key) && Keys(u) == Keys(t) - {t.key}
  {
    ItemKeys(t.L);
    ItemKeys(t.R);
  }

  /** removeIP4Node when the node is left-heavy: the in-order predecessor
      takes its place. */
  function ReplacedByPrev<V>(t: Tree<V>): (r: Fix<V>)
    requires t.Node? && t.L.Node? && t.R.Node? && Balanced(t) && t.B == -1
    ensures Balanced(r.tree)
    ensures Height(r.tree) == Height(t) - (if r.changed then 1 else 0)
    ensures InOrder(r.tree) == InOrder(t.L) + InOrder(t.R)
    ensures Items(r.tree) == Items(t.L) + Items(t.R) && Keys(r.tree) == Keys(t.L) + Keys(t.R)
    ensures Bst(t) ==> Bst(r.tree)
  {
    var Node(p, _, _, b, q) := t;
    PickPrevOfLeaf(p);
    var c := if p.R.Leaf? then Picked(p.L, Item(p.key, p.val), true) else PickPrev(p);
    var f := Shrunk(Node(c.rest, c.item.key, c.item.val, b, q), if c.shrunk then 1 else 0);
    ReplacedPrevContent(t, c, f.tree);
    ReplacedPrevHeight(t, c, f.tree, f.changed);
    f
  }

  /** removeIP4Node otherwise: the in-order successor takes its place. */
  function ReplacedByNext<V>(t: Tree<V>): (r: Fix<V>)
    requires t.Node? && t.L.Node? && t.R.Node? && Balanced(t) && t.B != -1
    ensures Balanced(r.tree)
    ensures Height(r.tree) == Height(t) - (if r.changed then 1 else 0)
    ensures InOrder(r.tree) == InOrder(t.L) + InOrder(t.R)
    ensures Items(r.tree) == Items(t.L) + Items(t.R) && Keys(r.tree) == Keys(t.L) + Keys(t.R)
    ensures Bst(t) ==> Bst(r.tree)
  {
    var Node(p, _, _, b, q) := t;
    PickNextOfLeaf(q);
    var c := if q.L.Leaf? then Picked(q.R, Item(q.key, q.val), true) else PickNext(q);
    var f := Shrunk(Node(p, c.item.key, c.item.val, b, c.rest), if c.shrunk then -1 else 0);
    ReplacedNextContent(t, c, f.tree);
    ReplacedNextHeight(t, c, f.tree, f.changed);
    f
  }

  /** removeIP4Node unlinks a left child without a right subtree directly;
      pickPrevIP4Node would have done the same. */
  lemma PickPrevOfLeaf<V>(p: Tree<V>)
    requires p.Node? && Balanced(p)
    ensures p.R.Leaf? ==> PickPrev(p) == Picked(p.L, Item(p.key, p.val), true)
  {
    if p.R.Leaf? && p.L.Node? {
      assert Height(p.L) == 1 && Balanced(p.L);
    }
  }

  /** removeIP4Node unlinks a right child without a left subtree directly;
      pickNextIP4Node would have done the same. */
  lemma PickNextOfLeaf<V>(q: Tree<V>)
    requires q.Node? && Balanced(q)
    ensures q.L.Leaf? ==> PickNext(q) == Picked(q.R, Item(q.key, q.val), true)
  {
    if q.L.Leaf? && q.R.Node? {
      assert Height(q.R) == 1 && Balanced(q.R);
    }
  }

  /** The entries once the predecessor `c.item`, taken from the left
      subtree, replaces the root. */
  lemma ReplacedPrevContent<V>(t: Tree<V>, c: Picked<V>, u: Tree<V>)
    requires t.Node?
    requires InOrder(c.rest) + [c.item] == InOrder(t.L)
    requires Items(c.rest) + {c.item} == Items(t.L) && Keys(c.rest) + {c.item.key} == Keys(t.L)
    requires Bst(t.L) ==> Bst(c.rest) && forall x :: x in Keys(c.rest) ==> x < c.item.key
    requires var o := Node(c.rest, c.item.key, c.item.val, t.B, t.R);
             InOrder(u) == InOrder(o) && Items(u) == Items(o) && Keys(u) == Keys(o) && (Bst(o) ==> Bst(u))
    ensures InOrder(u) == InOrder(t.L) + InOrder(t.R)
    ensures Items(u) == Items(t.L) + Items(t.R) && Keys(u) == Keys(t.L) + Keys(t.R)
    ensures Bst(t) ==> Bst(u)
  {
    if Bst(t) {
      assert c.item.key in Keys(t.L);
    }
  }

  /** The entries once the successor `c.item`, taken from the right
      subtree, replaces the root. */
  lemma ReplacedNextContent<V>(t: Tree<V>, c: Picked<V>, u: Tree<V>)
    requires t.Node?
    requires [c.item] + InOrder(c.rest) == InOrder(t.R)
    requires Items(c.rest) + {c.item} == Items(t.R) && Keys(c.rest) + {c.item.key} == Keys(t.R)
    requires Bst(t.R) ==> Bst(c.rest) && forall x :: x in Keys(c.rest) ==> c.item.key < x
    requires var o := Node(t.L, c.item.key, c.item.val, t.B, c.rest);
             InOrder(u) == InOrder(o) && Items(u) == Items(o) && Keys(u) == Keys(o) && (Bst(o) ==> Bst(u))
    ensures InOrder(u) == InOrder(t.L) + InOrder(t.R)
    ensures Items(u) == Items(t.L) + Items(t.R) && Keys(u) == Keys(t.L) + Keys(t.R)
    ensures Bst(t) ==> Bst(u)
  {
    if Bst(t) {
      assert c.item.key in Keys(t.R);
    }
  }

  lemma ReplacedPrevHeight<V>(t: Tree<V>, c: Picked<V>, u: Tree<V>, changed: bool)
    requires t.Node? && Height(c.rest) == Height(t.L) - (if c.shrunk then 1 else 0)
    requires Height(u) == HeightBefore(Node(c.rest, c.item.key, c.item.val, t.B, t.R),
                                       if c.shrunk then -1 else 0, -1) - (if changed then 1 else 0)
    ensures Height(u) == Height(t) - (if changed then 1 else 0)
  {
  }

  lemma ReplacedNextHeight<V>(t: Tree<V>, c: Picked<V>, u: Tree<V>, changed: bool)
    requires t.Node? && Height(c.rest) == Height(t.R) - (if c.shrunk then 1 else 0)
    requires Height(u) == HeightBefore(Node(t.L, c.item.key, c.item.val, t.B, c.rest),
                                       if c.shrunk then 1 else 0, -1) - (if changed then 1 else 0)
    ensures Height(u) == Height(t) - (if changed then 1 else 0)
  {
  }

  /** What an insertion into one subtree means for the node above it,
      before any rebalancing (`left` says which subtree). */
  lemma InsertedBelow<V>(t: Tree<V>, k: nat, v: V, alloc: bool, c: Tree<V>, grew: bool, left: bool)
    requires t.Node? && (if left then k < t.key else t.key < k)
    requires var s := if left then t.L else t.R;
             (!alloc ==> c == s && !grew) &&
             (Bst(s) && k in Keys(s) ==> c == s && !grew) &&
             (Bst(s) && alloc && k !in Keys(s) ==>
                Items(c) == Items(s) + {Item(k, v)} && Keys(c) == Keys(s) + {k}) &&
             (Bst(s) ==> Bst(c))
    ensures var o := if left then Node(c, t.key, t.val, t.B, t.R) else Node(t.L, t.key, t.val, t.B, c);
            (!alloc ==> o == t) &&
            (Bst(t) && k in Keys(t) ==> o == t) &&
            (Bst(t) && alloc && k !in Keys(t) ==>
               Items(o) == Items(t) + {Item(k, v)} && Keys(o) == Keys(t) + {k}) &&
            (Bst(t) ==> Bst(o))
  {
    assert Keys(t) == Keys(t.L) + {t.key} + Keys(t.R);
    if left {
      assert Bst(t) && k in Keys(t) ==> k in Keys(t.L);
    } else {
      assert Bst(t) && k in Keys(t) ==> k in Keys(t.R);
    }
  }

  /** Every key belongs to an entry. */
  lemma {:induction false} KeyHasItem<V>(t: Tree<V>, k: nat)
    requires k in Keys(t)
    ensures exists x :: x in Items(t) && x.key == k
  {
    match t
    case Node(l, key, v, _, r) =>
      if k in Keys(l) {
        KeyHasItem(l, k);
      } else if k in Keys(r) {
        KeyHasItem(r, k);
      } else {
        assert Item(key, v) in Items(t);
      }
  }

  /** In a search tree no two entries share a key. */
  lemma {:induction false} UniqueKeys<V>(t: Tree<V>)
    requires Bst(t)
    ensures forall x, y :: x in Items(t) && y in Items(t) && x.key == y.key ==> x == y
  {
    match t
    case Leaf =>
    case Node(l, k, v, _, r) =>
      UniqueKeys(l);
      UniqueKeys(r);
      ItemKeys(l);
      ItemKeys(r);
  }

  /** Every entry's key is among the tree's keys. */
  lemma {:induction false} ItemKeys<V>(t: Tree<V>)
    ensures forall x :: x in Items(t) ==> x.key in Keys(t)
  {
    match t
    case Leaf =>
    case Node(l, _, _, _, r) =>
      ItemKeys(l);
      ItemKeys(r);
  }

  /** The recursive step of pickPrevIP4Node: `c` is what the right subtree
      gave up; the node takes back the rest and rebalances. */
  function PrevUp<V>(t: Tree<V>, c: Picked<V>): (r: Picked<V>)
    requires t.Node? && t.R.Node? && Balanced(t)
    requires Balanced(c.rest) && Height(c.rest) == Height(t.R) - (if c.shrunk then 1 else 0)
    requires InOrder(c.rest) + [c.item] == InOrder(t.R)
    requires Items(c.rest) + {c.item} == Items(t.R) && Keys(c.rest) + {c.item.key} == Keys(t.R)
    requires Bst(t.R) ==> Bst(c.rest) && forall x :: x in Keys(c.rest) ==> x < c.item.key
    ensures Balanced(r.rest)
    ensures Height(r.rest) == Height(t) - (if r.shrunk then 1 else 0)
    ensures InOrder(r.rest) + [r.item] == InOrder(t)
    ensures Items(r.rest) + {r.item} == Items(t) && Keys(r.rest) + {r.item.key} == Keys(t)
    ensures Bst(t) ==> Bst(r.rest) && forall x :: x in Keys(r.rest) ==> x < r.item.key
  {
    var o := Node(t.L, t.key, t.val, t.B, c.rest);
    var f := Shrunk(o, if c.shrunk then -1 else 0);
    PrevUpContent(t, c, f.tree);
    Picked(f.tree, c.item, f.changed)
  }

  /** The entries after the recursive step of pickPrevIP4Node. */
  lemma PrevUpContent<V>(t: Tree<V>, c: Picked<V>, u: Tree<V>)
    requires t.Node?
    requires InOrder(c.rest) + [c.item] == InOrder(t.R)
    requires Items(c.rest) + {c.item} == Items(t.R) && Keys(c.rest) + {c.item.key} == Keys(t.R)
    requires Bst(t.R) ==> Bst(c.rest) && forall x :: x in Keys(c.rest) ==> x < c.item.key
    requires var o := Node(t.L, t.key, t.val, t.B, c.rest);
             InOrder(u) == InOrder(o) && Items(u) == Items(o) && Keys(u) == Keys(o) && (Bst(o) ==> Bst(u))
    ensures InOrder(u) + [c.item] == InOrder(t)
    ensures Items(u) + {c.item} == Items(t) && Keys(u) + {c.item.key} == Keys(t)
    ensures Bst(t) ==> Bst(u) && forall x :: x in Keys(u) ==> x < c.item.key
  {
    PickPrevStep(t, c.rest, c.item);
    SeqRejoinRight(InOrder(t.L), Item(t.key, t.val), InOrder(c.rest), c.item, InOrder(t.R));
    RejoinRight(Items(t.L), {Item(t.key, t.val)}, Items(c.rest), {c.item}, Items(t.R));
    RejoinRight(Keys(t.L), {t.key}, Keys(c.rest), {c.item.key}, Keys(t.R));
  }

  /** Putting back the last entry taken from the right part of a traversal. */
  lemma SeqRejoinRight<T>(a: seq<T>, n: T, rest: seq<T>, x: T, e: seq<T>)
    requires rest + [x] == e
    ensures (a + [n] + rest) + [x] == a + [n] + e
  {
  }

  /** Putting back the first entry taken from the left part of a traversal. */
  lemma SeqRejoinLeft<T>(x: T, rest: seq<T>, n: T, b: seq<T>, e: seq<T>)
    requires [x] + rest == e
    ensures [x] + (rest + [n] + b) == e + [n] + b
  {
  }

  /** Putting back what was taken from the right part of a union. */
  lemma RejoinRight<T>(a: set<T>, b: set<T>, c: set<T>, x: set<T>, e: set<T>)
    requires c + x == e
    ensures (a + b + c) + x == a + b + e
  {
  }

  /** Putting back what was taken from the left part of a union. */
  lemma RejoinLeft<T>(a: set<T>, b: set<T>, c: set<T>, x: set<T>, e: set<T>)
    requires a + x == e
    ensures (a + b + c) + x == e + b + c
  {
  }

  function NextUp<V>(t: Tree<V>, c: Picked<V>): (r: Picked<V>)
    requires t.Node? && t.L.Node? && Balanced(t)
    requires Balanced(c.rest) && Height(c.rest) == Height(t.L) - (if c.shrunk then 1 else 0)
    requires [c.item] + InOrder(c.rest) == InOrder(t.L)
    requires Items(c.rest) + {c.item} == Items(t.L) && Keys(c.rest) + {c.item.key} == Keys(t.L)
    requires Bst(t.L) ==> Bst(c.rest) && forall x :: x in Keys(c.rest) ==> c.item.key < x
    ensures Balanced(r.rest)
    ensures Height(r.rest) == Height(t) - (if r.shrunk then 1 else 0)
    ensures [r.item] + InOrder(r.rest) == InOrder(t)
    ensures Items(r.rest) + {r.item} == Items(t) && Keys(r.rest) + {r.item.key} == Keys(t)
    ensures Bst(t) ==> Bst(r.rest) && forall x :: x in Keys(r.rest) ==> r.item.key < x
  {
    var o := Node(c.rest, t.key, t.val, t.B, t.R);
    var f := Shrunk(o, if c.shrunk then 1 else 0);
    NextUpContent(t, c, f.tree);
    Picked(f.tree, c.item, f.changed)
  }

  /** The entries after the recursive step of pickNextIP4Node. */
  lemma NextUpContent<V>(t: Tree<V>, c: Picked<V>, u: Tree<V>)
    requires t.Node?
    requires [c.item] + InOrder(c.rest) == InOrder(t.L)
    requires Items(c.rest) + {c.item} == Items(t.L) && Keys(c.rest) + {c.item.key} == Keys(t.L)
    requires Bst(t.L) ==> Bst(c.rest) && forall x :: x in Keys(c.rest) ==> c.item.key < x
    requires var o := Node(c.rest, t.key, t.val, t.B, t.R);
             InOrder(u) == InOrder(o) && Items(u) == Items(o) && Keys(u) == Keys(o) && (Bst(o) ==> Bst(u))
    ensures [c.item] + InOrder(u) == InOrder(t)
    ensures Items(u) + {c.item} == Items(t) && Keys(u) + {c.item.key} == Keys(t)
    ensures Bst(t) ==> Bst(u) && forall x :: x in Keys(u) ==> c.item.key < x
  {
    PickNextStep(t, c.rest, c.item);
    SeqRejoinLeft(c.item, InOrder(c.rest), Item(t.key, t.val), InOrder(t.R), InOrder(t.L));
    RejoinLeft(Items(c.rest), {Item(t.key, t.val)}, Items(t.R), {c.item}, Items(t.L));
    RejoinLeft(Keys(c.rest), {t.key}, Keys(t.R), {c.item.key}, Keys(t.L));
  }

  /** The search order after PickPrev took the largest entry of the right
      subtree. */
  lemma PickPrevStep<V>(t: Tree<V>, rest: Tree<V>, item: Item<V>)
    requires t.Node? && Keys(rest) + {item.key} == Keys(t.R)
    requires Bst(t) ==> Bst(rest) && forall x :: x in Keys(rest) ==> x < item.key
    ensures Bst(t) ==> Bst(Node(t.L, t.key, t.val, t.B, rest)) &&
                       forall x :: x in Keys(Node(t.L, t.key, t.val, t.B, rest)) ==> x < item.key
  {
    if Bst(t) {
      assert item.key in Keys(t.R);
      assert forall x :: x in Keys(t.L) ==> x < item.key;
    }
  }

  lemma PickNextStep<V>(t: Tree<V>, rest: Tree<V>, item: Item<V>)
    requires t.Node? && Keys(rest) + {item.key} == Keys(t.L)
    requires Bst(t) ==> Bst(rest) && forall x :: x in Keys(rest) ==> item.key < x
    ensures Bst(t) ==> Bst(Node(rest, t.key, t.val, t.B, t.R)) &&
                       forall x :: x in Keys(Node(rest, t.key, t.val, t.B, t.R)) ==> item.key < x
  {
    if Bst(t) {
      assert item.key in Keys(t.L);
      assert forall x :: x in Keys(t.R) ==> item.key < x;
    }
  }

  /**
   * store.c findCCNode: descends by comparing the key and returns the entry
   * stored under exactly that key.
   */
  function Lookup<V>(k: nat, t: Tree<V>): (r: Option<Item<V>>)
    ensures r.Some? ==> r.value in Items(t) && r.value.key == k
  {
    match t
    case Leaf => None
    case Node(l, key, v, _, rt) =>
      if k < key then Lookup(k, l)
      else if k > key then Lookup(k, rt)
      else Some(Item(key, v))
  }

  /** On a search tree the lookup misses exactly the absent keys. */
  lemma {:induction false} LookupComplete<V>(k: nat, t: Tree<V>)
    requires Bst(t)
    ensures Lookup(k, t).Some? <==> k in Keys(t)
  {
    match t
    case Leaf =>
    case Node(l, key, _, _, rt) =>
      if k < key {
        LookupComplete(k, l);
      } else if k > key {
        LookupComplete(k, rt);
      }
  }

  /** Keys strictly ascend along a sequence of entries. */
  ghost predicate Ascending<V>(s: seq<Item<V>>) {
    forall i, j :: 0 <= i < j < |s| ==> s[i].key < s[j].key
  }

  /** The traversal lists exactly the stored entries. */
  lemma {:induction false} InOrderItems<V>(t: Tree<V>, x: Item<V>)
    ensures x in InOrder(t) <==> x in Items(t)
  {
    match t
    case Leaf =>
    case Node(l, _, _, _, r) =>
      InOrderItems(l, x);
      InOrderItems(r, x);
  }

  /** On a search tree the traversal lists the keys in strictly ascending order. */
  lemma {:induction false} InOrderAscending<V>(t: Tree<V>)
    requires Bst(t)
    ensures Ascending(InOrder(t))
  {
    match t
    case Leaf =>
    case Node(l, k, v, _, r) =>
      InOrderAscending(l);
      InOrderAscending(r);
      ItemKeys(l);
      ItemKeys(r);
      var a, b := InOrder(l), InOrder(r);
      var s := InOrder(t);
      assert s == a + [Item(k, v)] + b;
      forall i, j | 0 <= i < j < |s|
        ensures s[i].key < s[j].key
      {
        if j < |a| {
          assert s[i] == a[i] && s[j] == a[j];
        } else if i >= |a| + 1 {
          assert s[i] == b[i - |a| - 1] && s[j] == b[j - |a| - 1];
        } else {
          assert if i < |a| then s[i].key < k else s[i].key == k by {
            if i < |a| {
              assert s[i] == a[i] && a[i] in a;
              InOrderItems(l, a[i]);
            }
          }
          assert if j > |a| then k < s[j].key else s[j].key == k by {
            if j > |a| {
              assert s[j] == b[j - |a| - 1] && s[j] in b;
              InOrderItems(r, s[j]);
            }
          }
        }
      }
  }
}
