/**
 * The generic red-black tree interface: a container (root, optional
 * leftmost/rightmost pointers and count) described by a relationship
 * whose flags select the optional parts and whether keys are unique.
 *
 * The tree is a value-level binary tree of objects; an object is its node
 * identity plus its key.  The relationship's compare functions are the
 * three-way comparison of integer keys.  Colour is not part of the tree
 * value: rebalancing (`rb_insert_color`) keeps the in-order sequence, and
 * every property here is stated about that sequence.  The external
 * operations `rb_erase`, `rb_next`, `rb_prev` and `rb_replace_node` are
 * given in-order meanings below.
 */
module RbTree {
  import opened Base
  import Radix

  /* enum rb_flags */
  const HAS_LEFTMOST: bv32 := 0x01
  const HAS_RIGHTMOST: bv32 := 0x02
  const HAS_COUNT: bv32 := 0x04
  const UNIQUE_KEYS: bv32 := 0x08
  const INSERT_REPLACES: bv32 := 0x10
  const IS_AUGMENTED: bv32 := 0x40
  const ALL_FLAGS: bv32 := 0x5f

  /** `__rb_assert_good_rel`: no unknown flag, and replacing needs unique keys. */
  predicate GoodRel(flags: bv32)
  {
    flags & !ALL_FLAGS == 0 && (flags & INSERT_REPLACES != 0 ==> flags & UNIQUE_KEYS != 0)
  }

  /** The flags of a relationship, one field per flag. */
  datatype Rel = Rel(leftmost: bool, rightmost: bool, count: bool,
                     unique: bool, replacing: bool, augmented: bool)

  function Flags(r: Rel): (f: bv32)
  {
    (if r.leftmost then HAS_LEFTMOST else 0)
    | (if r.rightmost then HAS_RIGHTMOST else 0)
    | (if r.count then HAS_COUNT else 0)
    | (if r.unique then UNIQUE_KEYS else 0)
    | (if r.replacing then INSERT_REPLACES else 0)
    | (if r.augmented then IS_AUGMENTED else 0)
  }

  function Decode(flags: bv32): (r: Rel)
  {
    Rel(flags & HAS_LEFTMOST != 0, flags & HAS_RIGHTMOST != 0, flags & HAS_COUNT != 0,
        flags & UNIQUE_KEYS != 0, flags & INSERT_REPLACES != 0, flags & IS_AUGMENTED != 0)
  }

  /** `RB_ALL_FLAGS` is the union of the six flags. */
  lemma AllFlagsUnion()
    ensures ALL_FLAGS == HAS_LEFTMOST | HAS_RIGHTMOST | HAS_COUNT | UNIQUE_KEYS | INSERT_REPLACES | IS_AUGMENTED
  {
  }

  /** Reading the flags back out of a relationship's word gives the relationship. */
  lemma DecodeFlags(r: Rel)
    ensures Decode(Flags(r)) == r
  {
  }

  /** A relationship's word passes the check exactly when replacing implies unique keys. */
  lemma GoodRelFlags(r: Rel)
    ensures GoodRel(Flags(r)) <==> (r.replacing ==> r.unique)
  {
  }

  /** A word that passes the check is exactly the word of its decoded relationship. */
  lemma GoodRelDecode(flags: bv32)
    requires GoodRel(flags)
    ensures Flags(Decode(flags)) == flags
  {
  }

  /** An unknown bit (0x20) is refused whatever else is set. */
  lemma GoodRelRefusesUnknown(flags: bv32)
    requires flags & 0x20 != 0
    ensures !GoodRel(flags)
  {
  }

  predicate GoodRelOf(r: Rel)
  {
    GoodRel(Flags(r))
  }

  /* ---------------------------------------------------------------- */
  /* Objects, trees and their in-order sequences                       */

  /** An object in the tree: the identity of its node and its key. */
  datatype Obj = Obj(id: nat, key: int)

  datatype Tree = Leaf | Node(left: Tree, obj: Obj, right: Tree)

  function InOrder(t: Tree): (s: seq<Obj>)
    ensures t.Leaf? <==> s == []
  {
    match t
    case Leaf => []
    case Node(l, o, r) => InOrder(l) + [o] + InOrder(r)
  }

  /** The sign of `compare(a, b)`: positive when `a` is above `b`. */
  function Compare(a: int, b: int): (d: int)
    ensures d > 0 <==> a > b
    ensures d < 0 <==> a < b
    ensures d == 0 <==> a == b
  {
    if a < b then -1 else if a > b then 1 else 0
  }

  /** `a` comes before `b`; strictly so in a tree with unique keys. */
  predicate Before(a: int, b: int, strict: bool)
  {
    if strict then a < b else a <= b
  }

  predicate Sorted(s: seq<Obj>, strict: bool)
  {
    forall i, j :: 0 <= i < j < |s| ==> Before(s[i].key, s[j].key, strict)
  }

  predicate DistinctIds(s: seq<Obj>)
  {
    forall i, j :: 0 <= i < j < |s| ==> s[i].id != s[j].id
  }

  predicate AllBelow(s: seq<Obj>, key: int)
  {
    forall i :: 0 <= i < |s| ==> s[i].key < key
  }

  /** Every key is at or above `key`, strictly above when `strict`. */
  predicate AllAbove(s: seq<Obj>, key: int, strict: bool)
  {
    forall i :: 0 <= i < |s| ==> Before(key, s[i].key, strict)
  }

  predicate NoKey(s: seq<Obj>, key: int)
  {
    forall i :: 0 <= i < |s| ==> s[i].key != key
  }

  /** The number of keys below `key`: where an insertion of `key` lands. */
  function CountBelow(s: seq<Obj>, key: int): (n: nat)
    ensures n <= |s|
  {
    if s == [] then 0 else (if s[0].key < key then 1 else 0) + CountBelow(s[1..], key)
  }

  function First(s: seq<Obj>): Option<Obj>
  {
    if s == [] then None else Some(s[0])
  }

  function Last(s: seq<Obj>): Option<Obj>
  {
    if s == [] then None else Some(s[|s| - 1])
  }

  /** The position of a node in the in-order sequence. */
  function IndexOf(s: seq<Obj>, o: Obj): (i: nat)
    requires o in s
    ensures i < |s| && s[i] == o
    ensures forall j :: 0 <= j < i ==> s[j] != o
  {
    if s[0] == o then 0 else 1 + IndexOf(s[1..], o)
  }

  /** `rb_next`: the in-order successor of a node, or NULL for the last one. */
  function Next(s: seq<Obj>, o: Obj): Option<Obj>
    requires o in s
  {
    var i := IndexOf(s, o);
    if i + 1 < |s| then Some(s[i + 1]) else None
  }

  /** `rb_prev`: the in-order predecessor of a node, or NULL for the first one. */
  function Prev(s: seq<Obj>, o: Obj): Option<Obj>
    requires o in s
  {
    var i := IndexOf(s, o);
    if i > 0 then Some(s[i - 1]) else None
  }

  /* ---------------------------------------------------------------- */
  /* Sequence facts                                                    */

  lemma SortedSplit(a: seq<Obj>, o: Obj, b: seq<Obj>, strict: bool)
    requires Sorted(a + [o] + b, strict)
    ensures Sorted(a, strict) && Sorted(b, strict)
    ensures forall i :: 0 <= i < |a| ==> Before(a[i].key, o.key, strict)
    ensures AllAbove(b, o.key, strict)
  {
    var s := a + [o] + b;
    assert forall i :: 0 <= i < |a| ==> s[i] == a[i];
    assert forall i :: 0 <= i < |b| ==> s[|a| + 1 + i] == b[i];
    assert s[|a|] == o;
  }

  /** The subtree `t` covers the slice `s[lo..hi]` of the whole in-order sequence. */
  predicate Covers(s: seq<Obj>, lo: int, hi: int, t: Tree)
  {
    0 <= lo <= hi <= |s| && s[lo..hi] == InOrder(t)
  }

  /** The slice a subtree covers splits at its root. */
  lemma SliceSplit(s: seq<Obj>, lo: int, hi: int, t: Tree)
    requires t.Node? && Covers(s, lo, hi, t)
    ensures var m := lo + |InOrder(t.left)|;
      && lo <= m < hi && s[m] == t.obj
      && Covers(s, lo, m, t.left) && Covers(s, m + 1, hi, t.right)
  {
    var m := lo + |InOrder(t.left)|;
    var w := InOrder(t);
    assert w == InOrder(t.left) + [t.obj] + InOrder(t.right);
    assert s[lo..m] == w[..|InOrder(t.left)|];
    assert s[m] == w[|InOrder(t.left)|];
    assert s[m + 1..hi] == w[|InOrder(t.left)| + 1..];
  }

  lemma {:induction false} CountBelowSplit(a: seq<Obj>, b: seq<Obj>, key: int)
    requires AllBelow(a, key) && AllAbove(b, key, false)
    ensures CountBelow(a + b, key) == |a|
    decreases |a|
  {
    if a == [] {
      CountBelowNone(b, key);
      assert a + b == b;
    } else {
      assert (a + b)[1..] == a[1..] + b;
      CountBelowSplit(a[1..], b, key);
    }
  }

  lemma {:induction false} CountBelowNone(b: seq<Obj>, key: int)
    requires AllAbove(b, key, false)
    ensures CountBelow(b, key) == 0
    decreases |b|
  {
    if b != [] {
      CountBelowNone(b[1..], key);
    }
  }

  lemma IndexOfDistinct(s: seq<Obj>, o: Obj, j: int)
    requires DistinctIds(s) && o in s && 0 <= j < |s| && s[j] == o
    ensures IndexOf(s, o) == j
  {
  }

  /* ---------------------------------------------------------------- */
  /* Searches                                                          */

  /**
   * `__rb_find`: descend from `t`, right while the key is above the
   * node's, left while below; stop at an equal key.
   */
  method Find(t: Tree, key: int) returns (r: Option<Obj>)
    requires Sorted(InOrder(t), false)
    ensures r.Some? ==> r.value in InOrder(t) && r.value.key == key
    ensures r.None? <==> NoKey(InOrder(t), key)
  {
    ghost var s := InOrder(t);
    var n := t;
    ghost var lo: int, hi: int := 0, |s|;
    while n.Node?
      invariant FirstInv(s, key, lo, hi, None)
      invariant Covers(s, lo, hi, n)
      decreases n
    {
      SliceSplit(s, lo, hi, n);
      ghost var m := lo + |InOrder(n.left)|;
      FirstStep(s, key, lo, m, hi, n.obj, None);
      var diff := Compare(key, n.obj.key);
      if diff > 0 {
        n, lo := n.right, m + 1;
      } else if diff < 0 {
        n, hi := n.left, m;
      } else {
        return Some(n.obj);
      }
    }
    FirstLastEnd(s, key, true, lo, None);
    return None;
  }

  /**
   * `__rb_find_first_last` as written: at an equal key it moves to the
   * left (first) or right (last) child, if there is one, without
   * remembering the equal node.
   */
  function FirstLastAsWritten(t: Tree, key: int, first: bool): (r: Option<Obj>)
    ensures r.Some? ==> r.value in InOrder(t) && r.value.key == key
  {
    match t
    case Leaf => None
    case Node(l, o, rt) =>
      if key > o.key then FirstLastAsWritten(rt, key, first)
      else if key < o.key then FirstLastAsWritten(l, key, first)
      else if first && l.Node? then FirstLastAsWritten(l, key, first)
      else if !first && rt.Node? then FirstLastAsWritten(rt, key, first)
      else Some(o)
  }

  /**
   * The code as written misses a present key: root key 5, left child
   * key 3.  Looking for the first 5 moves to the 3, goes right from it
   * and ends at NULL; the mirror image defeats the search for the last.
   */
  lemma FirstLastAsWrittenMisses()
    ensures var t := Node(Node(Leaf, Obj(1, 3), Leaf), Obj(2, 5), Leaf);
      Sorted(InOrder(t), false) && !NoKey(InOrder(t), 5) && FirstLastAsWritten(t, 5, true) == None
    ensures var t := Node(Leaf, Obj(2, 5), Node(Leaf, Obj(1, 7), Leaf));
      Sorted(InOrder(t), false) && !NoKey(InOrder(t), 5) && FirstLastAsWritten(t, 5, false) == None
  {
    var t := Node(Node(Leaf, Obj(1, 3), Leaf), Obj(2, 5), Leaf);
    assert InOrder(t) == [Obj(1, 3), Obj(2, 5)];
    assert InOrder(t)[1].key == 5;
    var u := Node(Leaf, Obj(2, 5), Node(Leaf, Obj(1, 7), Leaf));
    assert InOrder(u) == [Obj(2, 5), Obj(1, 7)];
    assert InOrder(u)[0].key == 5;
  }

  /**
   * `s[i]` is the first (or, when `!first`, the last) node in order whose
   * key equals `key`.
   */
  predicate FirstOrLast(s: seq<Obj>, key: int, first: bool, i: int)
  {
    && 0 <= i < |s| && s[i].key == key
    && (first ==> forall j :: 0 <= j < i ==> s[j].key < key)
    && (!first ==> forall j :: i < j < |s| ==> s[j].key > key)
  }

  /**
   * What the corrected descent for the first equal key knows: every node
   * left of the current subtree (`s[..lo]`) is below the key; every node
   * right of it (`s[hi..]`) is above it, or at least equal once an equal
   * node has been remembered, and the remembered node is `s[hi]`.
   */
  predicate FirstInv(s: seq<Obj>, key: int, lo: int, hi: int, best: Option<Obj>)
  {
    && 0 <= lo <= hi <= |s|
    && (forall j :: 0 <= j < lo ==> s[j].key < key)
    && (forall j :: hi <= j < |s| ==> if best.None? then s[j].key > key else s[j].key >= key)
    && (best.Some? ==> hi < |s| && s[hi] == best.value && best.value.key == key)
  }

  /** The mirror image, for the last equal key: the remembered node is `s[lo - 1]`. */
  predicate LastInv(s: seq<Obj>, key: int, lo: int, hi: int, best: Option<Obj>)
  {
    && 0 <= lo <= hi <= |s|
    && (forall j :: hi <= j < |s| ==> s[j].key > key)
    && (forall j :: 0 <= j < lo ==> if best.None? then s[j].key < key else s[j].key <= key)
    && (best.Some? ==> 0 < lo && s[lo - 1] == best.value && best.value.key == key)
  }

  predicate FirstLastInv(s: seq<Obj>, key: int, first: bool, lo: int, hi: int, best: Option<Obj>)
  {
    if first then FirstInv(s, key, lo, hi, best) else LastInv(s, key, lo, hi, best)
  }

  /** One step of the search for the first equal key, at node `o == s[m]`. */
  lemma FirstStep(s: seq<Obj>, key: int, lo: int, m: int, hi: int, o: Obj, best: Option<Obj>)
    requires FirstInv(s, key, lo, hi, best)
    requires Sorted(s, false) && lo <= m < hi && s[m] == o
    ensures key > o.key ==> FirstInv(s, key, m + 1, hi, best)
    ensures key < o.key ==> FirstInv(s, key, lo, m, best)
    ensures key == o.key ==> FirstInv(s, key, lo, m, Some(o))
    ensures key == o.key && m == lo ==> FirstOrLast(s, key, true, m)
  {
    if key > o.key {
      assert forall j :: lo <= j <= m ==> Before(s[j].key, s[m].key, false);
    } else {
      assert forall j :: m <= j < hi ==> Before(s[m].key, s[j].key, false);
    }
  }

  /** One step of the search for the last equal key, at node `o == s[m]`. */
  lemma LastStep(s: seq<Obj>, key: int, lo: int, m: int, hi: int, o: Obj, best: Option<Obj>)
    requires LastInv(s, key, lo, hi, best)
    requires Sorted(s, false) && lo <= m < hi && s[m] == o
    ensures key > o.key ==> LastInv(s, key, m + 1, hi, best)
    ensures key < o.key ==> LastInv(s, key, lo, m, best)
    ensures key == o.key ==> LastInv(s, key, m + 1, hi, Some(o))
    ensures key == o.key && m + 1 == hi ==> FirstOrLast(s, key, false, m)
  {
    if key < o.key {
      assert forall j :: m <= j < hi ==> Before(s[m].key, s[j].key, false);
    } else {
      assert forall j :: lo <= j <= m ==> Before(s[j].key, s[m].key, false);
    }
  }

  lemma FirstLastEnd(s: seq<Obj>, key: int, first: bool, i: int, best: Option<Obj>)
    requires FirstLastInv(s, key, first, i, i, best)
    ensures best.None? ==> NoKey(s, key)
    ensures best.Some? && first ==> FirstOrLast(s, key, first, i) && s[i] == best.value
    ensures best.Some? && !first ==> FirstOrLast(s, key, first, i - 1) && s[i - 1] == best.value
  {
  }

  /**
   * `__rb_find_first_last`, corrected: an equal node that has a child in
   * the search direction is remembered before moving on, and is the answer
   * when the descent runs out.  Returns the first (or last) node in order
   * with an equal key, or NULL when there is none.
   */
  method FindFirstLast(t: Tree, key: int, first: bool) returns (r: Option<Obj>)
    requires Sorted(InOrder(t), false)
    ensures r.None? <==> NoKey(InOrder(t), key)
    ensures r.Some? ==> exists i :: FirstOrLast(InOrder(t), key, first, i) && InOrder(t)[i] == r.value
  {
    ghost var s := InOrder(t);
    var n := t;
    var best: Option<Obj> := None;
    ghost var lo: int, hi: int := 0, |s|;
    var done := false;
    r := None;
    while !done && n.Node?
      invariant !done ==> FirstLastInv(s, key, first, lo, hi, best) && Covers(s, lo, hi, n)
      invariant done ==> r.Some? && exists i :: FirstOrLast(s, key, first, i) && s[i] == r.value
      decreases !done, n
    {
      n, lo, hi, best, done, r := FindFirstLastOne(s, key, first, n, lo, hi, best);
    }
    if !done {
      FirstLastEnd(s, key, first, lo, best);
      r := best;
    }
  }

  /** One pass of the loop of `__rb_find_first_last` (corrected) at node `n`. */
  method FindFirstLastOne(ghost s: seq<Obj>, key: int, first: bool, n: Tree, ghost lo: int, ghost hi: int,
                      best: Option<Obj>)
    returns (next: Tree, ghost lo': int, ghost hi': int, best': Option<Obj>, done: bool, r: Option<Obj>)
    requires Sorted(s, false) && n.Node?
    requires FirstLastInv(s, key, first, lo, hi, best) && Covers(s, lo, hi, n)
    ensures !done ==> FirstLastInv(s, key, first, lo', hi', best') && Covers(s, lo', hi', next)
    ensures !done ==> next == n.left || next == n.right
    ensures done ==> r.Some? && exists i :: FirstOrLast(s, key, first, i) && s[i] == r.value
  {
    SliceSplit(s, lo, hi, n);
    ghost var m := lo + |InOrder(n.left)|;
    if first {
      FirstStep(s, key, lo, m, hi, n.obj, best);
    } else {
      LastStep(s, key, lo, m, hi, n.obj, best);
    }
    next, lo', hi', best', done, r := n, lo, hi, best, false, None;
    var diff := Compare(key, n.obj.key);
    if diff > 0 {
      next, lo' := n.right, m + 1;
    } else if diff < 0 {
      next, hi' := n.left, m;
    } else if first && n.left.Node? {
      best' := Some(n.obj);
      next, hi' := n.left, m;
    } else if !first && n.right.Node? {
      best' := Some(n.obj);
      next, lo' := n.right, m + 1;
    } else {
      done, r := true, Some(n.obj);
    }
  }

  /**
   * `rb_find_next`: the in-order successor when its key compares equal to
   * the node's, otherwise NULL.
   */
  function FindNext(t: Tree, o: Obj): (r: Option<Obj>)
    requires o in InOrder(t)
    ensures r.Some? ==> r.value in InOrder(t) && r.value.key == o.key
  {
    var next := Next(InOrder(t), o);
    if next.Some? && Compare(o.key, next.value.key) == 0 then next else None
  }

  /** `rb_find_prev`: the in-order predecessor when its key is equal, otherwise NULL. */
  function FindPrev(t: Tree, o: Obj): (r: Option<Obj>)
    requires o in InOrder(t)
    ensures r.Some? ==> r.value in InOrder(t) && r.value.key == o.key
  {
    var prev := Prev(InOrder(t), o);
    if prev.Some? && Compare(o.key, prev.value.key) == 0 then prev else None
  }

  /**
   * Following `rb_find_next` walks the run of equal keys: it yields the
   * next node in order exactly when that one has the same key, and once
   * it yields NULL no later node has that key.
   */
  lemma FindNextWalksRun(t: Tree, o: Obj)
    requires Sorted(InOrder(t), false) && o in InOrder(t)
    ensures var s, i := InOrder(t), IndexOf(InOrder(t), o);
      && (FindNext(t, o).Some? <==> i + 1 < |s| && s[i + 1].key == o.key)
      && (FindNext(t, o).Some? ==> FindNext(t, o).value == s[i + 1])
      && (FindNext(t, o).None? ==> forall j :: i < j < |s| ==> s[j].key > o.key)
  {
    var s, i := InOrder(t), IndexOf(InOrder(t), o);
    if FindNext(t, o).None? && i + 1 < |s| {
      assert s[i + 1].key > o.key;
      forall j | i < j < |s|
        ensures s[j].key > o.key
      {
        assert Before(s[i + 1].key, s[j].key, false);
      }
    }
  }

  /** The mirror image for `rb_find_prev`. */
  lemma FindPrevWalksRun(t: Tree, o: Obj)
    requires Sorted(InOrder(t), false) && o in InOrder(t)
    ensures var s, i := InOrder(t), IndexOf(InOrder(t), o);
      && (FindPrev(t, o).Some? <==> i > 0 && s[i - 1].key == o.key)
      && (FindPrev(t, o).Some? ==> FindPrev(t, o).value == s[i - 1])
      && (FindPrev(t, o).None? ==> forall j :: 0 <= j < i ==> s[j].key < o.key)
  {
    var s, i := InOrder(t), IndexOf(InOrder(t), o);
    if FindPrev(t, o).None? && i > 0 {
      assert s[i - 1].key < o.key;
      forall j | 0 <= j < i
        ensures s[j].key < o.key
      {
        assert Before(s[j].key, s[i - 1].key, false);
      }
    }
  }

  /* ---------------------------------------------------------------- */
  /* The insertion descent: `struct rb_node **p` as a path and a hole   */

  /** One step of the descent: which child was taken, and what stays beside it. */
  datatype Frame = WentLeft(obj: Obj, right: Tree) | WentRight(left: Tree, obj: Obj)

  /** The frames from the root down to `*p`, and the subtree at `*p`. */
  datatype Path = Path(ctx: seq<Frame>, hole: Tree)

  /** Put a subtree back at the bottom of a path (what `*p = node` does). */
  function Plug(ctx: seq<Frame>, t: Tree): Tree
  {
    if ctx == [] then t
    else
      match ctx[0]
      case WentLeft(o, r) => Node(Plug(ctx[1..], t), o, r)
      case WentRight(l, o) => Node(l, o, Plug(ctx[1..], t))
  }

  /** The nodes in order before the hole ... */
  function CtxLeft(ctx: seq<Frame>): seq<Obj>
  {
    if ctx == [] then []
    else
      match ctx[0]
      case WentLeft(_, _) => CtxLeft(ctx[1..])
      case WentRight(l, o) => InOrder(l) + [o] + CtxLeft(ctx[1..])
  }

  /** ... and after it. */
  function CtxRight(ctx: seq<Frame>): seq<Obj>
  {
    if ctx == [] then []
    else
      match ctx[0]
      case WentLeft(o, r) => CtxRight(ctx[1..]) + [o] + InOrder(r)
      case WentRight(_, _) => CtxRight(ctx[1..])
  }

  predicate NoRightTurn(ctx: seq<Frame>)
  {
    forall i :: 0 <= i < |ctx| ==> ctx[i].WentLeft?
  }

  predicate NoLeftTurn(ctx: seq<Frame>)
  {
    forall i :: 0 <= i < |ctx| ==> ctx[i].WentRight?
  }

  /**
   * The descent of `rb_insert`: right when the key is above the node's;
   * left when below, or when equal in a tree with non-unique keys; stop at
   * an equal key in a tree with unique keys, or at NULL.
   */
  function Descend(t: Tree, key: int, unique: bool): Path
  {
    match t
    case Leaf => Path([], Leaf)
    case Node(l, o, r) =>
      if key > o.key then
        var p := Descend(r, key, unique);
        Path([WentRight(l, o)] + p.ctx, p.hole)
      else if !unique || key < o.key then
        var p := Descend(l, key, unique);
        Path([WentLeft(o, r)] + p.ctx, p.hole)
      else Path([], t)
  }

  lemma {:induction false} PlugInOrder(ctx: seq<Frame>, t: Tree)
    ensures InOrder(Plug(ctx, t)) == CtxLeft(ctx) + InOrder(t) + CtxRight(ctx)
    decreases |ctx|
  {
    if ctx != [] {
      var rest := ctx[1..];
      PlugInOrder(rest, t);
      match ctx[0]
      case WentLeft(o, r) =>
        ConcatAssoc(CtxLeft(rest) + InOrder(t), CtxRight(rest), [o] + InOrder(r));
      case WentRight(l, o) =>
        ConcatAssoc(InOrder(l) + [o], CtxLeft(rest), InOrder(t));
        ConcatAssoc(InOrder(l) + [o], CtxLeft(rest) + InOrder(t), CtxRight(rest));
    }
  }

  /** Concatenation is associative; spelled out because the solver only sees it through extensionality. */
  lemma ConcatAssoc(a: seq<Obj>, b: seq<Obj>, c: seq<Obj>)
    ensures (a + b) + c == a + (b + c)
  {
    var lhs, rhs := (a + b) + c, a + (b + c);
    assert |lhs| == |rhs|;
    forall i | 0 <= i < |lhs|
      ensures lhs[i] == rhs[i]
    {
      if i < |a| {
      } else if i < |a| + |b| {
      } else {
      }
    }
  }

  lemma {:induction false} NoRightTurnLeft(ctx: seq<Frame>)
    ensures NoRightTurn(ctx) <==> CtxLeft(ctx) == []
    decreases |ctx|
  {
    if ctx != [] {
      NoRightTurnLeft(ctx[1..]);
      assert NoRightTurn(ctx) <==> ctx[0].WentLeft? && NoRightTurn(ctx[1..]) by {
        assert forall i :: 0 < i < |ctx| ==> ctx[i] == ctx[1..][i - 1];
      }
    }
  }

  lemma {:induction false} NoLeftTurnRight(ctx: seq<Frame>)
    ensures NoLeftTurn(ctx) <==> CtxRight(ctx) == []
    decreases |ctx|
  {
    if ctx != [] {
      NoLeftTurnRight(ctx[1..]);
      assert NoLeftTurn(ctx) <==> ctx[0].WentRight? && NoLeftTurn(ctx[1..]) by {
        assert forall i :: 0 < i < |ctx| ==> ctx[i] == ctx[1..][i - 1];
      }
    }
  }

  /**
   * What the descent finds in a search tree: the path puts the hole back
   * where it was; everything before the hole is below the key, everything
   * after is at or above it (strictly above with unique keys); and the
   * hole is NULL unless the tree has unique keys and holds the key, in
   * which case it is that node.
   */
  /** One step of the descent: the frame it pushes and the subtree it continues in. */
  lemma DescendStep(ctx: seq<Frame>, p: Tree, key: int, unique: bool)
    requires p.Node? && (key > p.obj.key || !unique || key < p.obj.key)
    ensures key > p.obj.key ==>
      && ctx + Descend(p, key, unique).ctx == (ctx + [WentRight(p.left, p.obj)]) + Descend(p.right, key, unique).ctx
      && Descend(p, key, unique).hole == Descend(p.right, key, unique).hole
    ensures key <= p.obj.key ==>
      && ctx + Descend(p, key, unique).ctx == (ctx + [WentLeft(p.obj, p.right)]) + Descend(p.left, key, unique).ctx
      && Descend(p, key, unique).hole == Descend(p.left, key, unique).hole
  {
  }

  /**
   * The descent takes the tree apart without losing anything, and it stops
   * at a node only with unique keys and at an equal key.
   */
  lemma {:induction false} DescendPlug(t: Tree, key: int, unique: bool)
    ensures Plug(Descend(t, key, unique).ctx, Descend(t, key, unique).hole) == t
    ensures Descend(t, key, unique).hole.Node? ==> unique && Descend(t, key, unique).hole.obj.key == key
  {
    match t
    case Leaf =>
    case Node(l, o, r) =>
      var d := Descend(t, key, unique);
      if key > o.key {
        DescendPlug(r, key, unique);
        assert d.ctx[1..] == Descend(r, key, unique).ctx;
      } else if !unique || key < o.key {
        DescendPlug(l, key, unique);
        assert d.ctx[1..] == Descend(l, key, unique).ctx;
      }
  }

  /**
   * In a search tree, everything left of the descent path is below the
   * key, and everything right of it is at or above it (above it with
   * unique keys).
   */
  lemma {:induction false} DescendSpec(t: Tree, key: int, unique: bool)
    requires Sorted(InOrder(t), unique)
    ensures AllBelow(CtxLeft(Descend(t, key, unique).ctx), key)
    ensures AllAbove(CtxRight(Descend(t, key, unique).ctx), key, unique)
  {
    match t
    case Leaf =>
    case Node(l, o, r) =>
      SortedSplit(InOrder(l), o, InOrder(r), unique);
      var d := Descend(t, key, unique);
      if key > o.key {
        DescendSpec(r, key, unique);
        var p := Descend(r, key, unique);
        assert d.ctx[1..] == p.ctx;
        assert CtxLeft(d.ctx) == InOrder(l) + [o] + CtxLeft(p.ctx);
      } else if !unique || key < o.key {
        DescendSpec(l, key, unique);
        var p := Descend(l, key, unique);
        assert d.ctx[1..] == p.ctx;
        assert CtxRight(d.ctx) == CtxRight(p.ctx) + [o] + InOrder(r);
        forall i | 0 <= i < |InOrder(r)|
          ensures Before(key, InOrder(r)[i].key, unique)
        {
          assert Before(o.key, InOrder(r)[i].key, unique);
        }
      }
  }


  /* ---------------------------------------------------------------- */
  /* Insertion outcomes on values                                       */

  lemma NoTurnAppend(ctx: seq<Frame>, f: Frame)
    ensures NoRightTurn(ctx + [f]) <==> NoRightTurn(ctx) && f.WentLeft?
    ensures NoLeftTurn(ctx + [f]) <==> NoLeftTurn(ctx) && f.WentRight?
  {
    assert forall i :: 0 <= i < |ctx| ==> (ctx + [f])[i] == ctx[i];
    assert (ctx + [f])[|ctx|] == f;
  }

  /** Inserting between a part below the key and a part at or above it keeps order. */
  lemma InsertBetween(a: seq<Obj>, node: Obj, b: seq<Obj>, unique: bool)
    requires Sorted(a + b, unique) && DistinctIds(a + b)
    requires AllBelow(a, node.key) && AllAbove(b, node.key, unique)
    requires forall i :: 0 <= i < |a + b| ==> (a + b)[i].id != node.id
    ensures Sorted(a + [node] + b, unique) && DistinctIds(a + [node] + b)
  {
    var s, s' := a + b, a + [node] + b;
    assert forall i :: 0 <= i < |a| ==> s'[i] == s[i] && s[i] == a[i];
    assert forall i :: |a| < i < |s'| ==> s'[i] == s[i - 1] && s[i - 1] == b[i - |a| - 1];
  }

  /** Putting `node` in the place of `s[i]`, with the same key, keeps order. */
  lemma ReplaceAt(s: seq<Obj>, i: int, node: Obj, unique: bool)
    requires 0 <= i < |s| && s[i].key == node.key
    requires Sorted(s, unique) && DistinctIds(s)
    requires forall j :: 0 <= j < |s| ==> s[j].id != node.id
    ensures Sorted(s[i := node], unique) && DistinctIds(s[i := node])
  {
  }

  lemma {:induction false} RemoveAppend(a: seq<Obj>, b: seq<Obj>, x: Obj)
    ensures Radix.Remove(a + b, x) == Radix.Remove(a, x) + Radix.Remove(b, x)
    decreases |a|
  {
    if a == [] {
      assert a + b == b;
    } else {
      assert (a + b)[0] == a[0];
      assert (a + b)[1..] == a[1..] + b;
      RemoveAppend(a[1..], b, x);
      if a[0] != x {
        ConcatAssoc([a[0]], Radix.Remove(a[1..], x), Radix.Remove(b, x));
      }
    }
  }

  /** In a sequence without repeated ids, removing a node deletes its one position. */
  lemma {:induction false} RemoveAt(s: seq<Obj>, i: int)
    requires DistinctIds(s) && 0 <= i < |s|
    ensures Radix.Remove(s, s[i]) == s[..i] + s[i + 1..]
    decreases i
  {
    if i == 0 {
      assert s[0] !in s[1..] by {
        forall j | 1 <= j < |s|
          ensures s[j] != s[0]
        {
          assert s[0].id != s[j].id;
        }
      }
    } else {
      var tl := s[1..];
      assert tl[i - 1] == s[i];
      assert DistinctIds(tl) by {
        assert forall a :: 0 <= a < |tl| ==> tl[a] == s[a + 1];
      }
      RemoveAt(tl, i - 1);
      assert s[0] != s[i] by {
        assert s[0].id != s[i].id;
      }
      assert s[..i] == [s[0]] + tl[..i - 1];
      assert s[i + 1..] == tl[i..];
    }
  }

  /** Deleting one position keeps order and distinct ids. */
  lemma DeleteAt(s: seq<Obj>, i: int, unique: bool)
    requires 0 <= i < |s| && Sorted(s, unique) && DistinctIds(s)
    ensures Sorted(s[..i] + s[i + 1..], unique) && DistinctIds(s[..i] + s[i + 1..])
  {
    var t := s[..i] + s[i + 1..];
    assert forall a :: 0 <= a < |t| ==> t[a] == if a < i then s[a] else s[a + 1];
  }

  lemma CountWraps(n: nat, c: u64)
    requires c == n % U64
    ensures Inc64(c) == (n + 1) % U64
    ensures n > 0 ==> Dec64(c) == (n - 1) % U64
  {
    var q := n / U64;
    if c + 1 < U64 {
      DivModUnique(n + 1, U64, q, c + 1);
    } else {
      DivModUnique(n + 1, U64, q + 1, 0);
    }
    if n > 0 {
      if c > 0 {
        DivModUnique(n - 1, U64, q, c - 1);
      } else {
        DivModUnique(n - 1, U64, q - 1, U64 - 1);
      }
    }
  }

  /** The tree after linking `node` at the NULL the descent ends at. */
  function Linked(t: Tree, node: Obj, unique: bool): Tree
  {
    Plug(Descend(t, node.key, unique).ctx, Node(Leaf, node, Leaf))
  }

  /** The tree after putting `node` in the place of the equal node the descent stops at. */
  function Replaced(t: Tree, node: Obj): Tree
  {
    var d := Descend(t, node.key, true);
    match d.hole
    case Leaf => t
    case Node(l, _, r) => Plug(d.ctx, Node(l, node, r))
  }

  /** Linking splits the old order at the descent: the part left of the path and the part right of it. */
  lemma LinkSplit(t: Tree, node: Obj, unique: bool)
    requires Descend(t, node.key, unique).hole.Leaf?
    ensures InOrder(t) == CtxLeft(Descend(t, node.key, unique).ctx) + CtxRight(Descend(t, node.key, unique).ctx)
    ensures InOrder(Linked(t, node, unique))
         == CtxLeft(Descend(t, node.key, unique).ctx) + [node] + CtxRight(Descend(t, node.key, unique).ctx)
  {
    var d := Descend(t, node.key, unique);
    DescendPlug(t, node.key, unique);
    PlugInOrder(d.ctx, d.hole);
    PlugInOrder(d.ctx, Node(Leaf, node, Leaf));
    assert CtxLeft(d.ctx) + [] + CtxRight(d.ctx) == CtxLeft(d.ctx) + CtxRight(d.ctx);
  }

  /** In a search tree the part left of the descent is the keys below the node's. */
  lemma LinkParts(t: Tree, node: Obj, unique: bool)
    requires Sorted(InOrder(t), unique)
    requires Descend(t, node.key, unique).hole.Leaf?
    ensures InOrder(t) == CtxLeft(Descend(t, node.key, unique).ctx) + CtxRight(Descend(t, node.key, unique).ctx)
    ensures InOrder(Linked(t, node, unique))
         == CtxLeft(Descend(t, node.key, unique).ctx) + [node] + CtxRight(Descend(t, node.key, unique).ctx)
    ensures AllBelow(CtxLeft(Descend(t, node.key, unique).ctx), node.key)
    ensures AllAbove(CtxRight(Descend(t, node.key, unique).ctx), node.key, unique)
    ensures CountBelow(InOrder(t), node.key) == |CtxLeft(Descend(t, node.key, unique).ctx)|
  {
    var d := Descend(t, node.key, unique);
    LinkSplit(t, node, unique);
    DescendSpec(t, node.key, unique);
    var a, b := CtxLeft(d.ctx), CtxRight(d.ctx);
    assert AllAbove(b, node.key, false) by {
      forall i | 0 <= i < |b|
        ensures node.key <= b[i].key
      {
        assert Before(node.key, b[i].key, unique);
      }
    }
    CountBelowSplit(a, b, node.key);
  }

  /**
   * Linking places the node after every key below its own and before
   * every key at or above it.
   */
  lemma LinkPosition(t: Tree, node: Obj, unique: bool)
    requires Sorted(InOrder(t), unique)
    requires Descend(t, node.key, unique).hole.Leaf?
    ensures var s, k := InOrder(t), CountBelow(InOrder(t), node.key);
      InOrder(Linked(t, node, unique)) == s[..k] + [node] + s[k..]
  {
    LinkParts(t, node, unique);
    var s, d := InOrder(t), Descend(t, node.key, unique);
    var a, b := CtxLeft(d.ctx), CtxRight(d.ctx);
    assert s[..|a|] == a && s[|a|..] == b;
  }

  /** Linking keeps the order and the distinct ids. */
  lemma LinkOrder(t: Tree, node: Obj, unique: bool)
    requires Sorted(InOrder(t), unique) && DistinctIds(InOrder(t))
    requires forall i :: 0 <= i < |InOrder(t)| ==> InOrder(t)[i].id != node.id
    requires Descend(t, node.key, unique).hole.Leaf?
    ensures Sorted(InOrder(Linked(t, node, unique)), unique)
    ensures DistinctIds(InOrder(Linked(t, node, unique)))
  {
    LinkParts(t, node, unique);
    var d := Descend(t, node.key, unique);
    InsertBetween(CtxLeft(d.ctx), node, CtxRight(d.ctx), unique);
  }

  /** With unique keys, the descent ends at a NULL only when the key is absent. */
  lemma LinkNoKey(t: Tree, key: int)
    requires Sorted(InOrder(t), true)
    requires Descend(t, key, true).hole.Leaf?
    ensures NoKey(InOrder(t), key)
  {
    LinkParts(t, Obj(0, key), true);
    var s, d := InOrder(t), Descend(t, key, true);
    var a, b := CtxLeft(d.ctx), CtxRight(d.ctx);
    forall i | 0 <= i < |s|
      ensures s[i].key != key
    {
      if i < |a| {
        assert s[i] == a[i];
      } else {
        assert s[i] == b[i - |a|];
      }
    }
  }

  /**
   * The descent never turned right (left) exactly when the linked node
   * becomes the first (last) in order.
   */
  lemma LinkEnds(t: Tree, node: Obj, unique: bool)
    requires Sorted(InOrder(t), unique)
    requires Descend(t, node.key, unique).hole.Leaf?
    ensures var s, k := InOrder(t), CountBelow(InOrder(t), node.key);
      && (NoRightTurn(Descend(t, node.key, unique).ctx) <==> k == 0)
      && (NoLeftTurn(Descend(t, node.key, unique).ctx) <==> k == |s|)
    ensures var s, k := InOrder(t), CountBelow(InOrder(t), node.key);
      && First(InOrder(Linked(t, node, unique))) == (if k == 0 then Some(node) else First(s))
      && Last(InOrder(Linked(t, node, unique))) == (if k == |s| then Some(node) else Last(s))
  {
    LinkParts(t, node, unique);
    var d := Descend(t, node.key, unique);
    NoRightTurnLeft(d.ctx);
    NoLeftTurnRight(d.ctx);
  }

  /** The order of a plugged node, grouped around the node itself. */
  lemma PlugNodeInOrder(ctx: seq<Frame>, l: Tree, x: Obj, r: Tree)
    ensures InOrder(Plug(ctx, Node(l, x, r))) == (CtxLeft(ctx) + InOrder(l)) + [x] + (InOrder(r) + CtxRight(ctx))
  {
    PlugInOrder(ctx, Node(l, x, r));
    Regroup(CtxLeft(ctx), InOrder(l), x, InOrder(r), CtxRight(ctx));
  }

  lemma Regroup(a: seq<Obj>, b: seq<Obj>, x: Obj, c: seq<Obj>, d: seq<Obj>)
    ensures a + (b + [x] + c) + d == (a + b) + [x] + (c + d)
  {
    var lhs, rhs := a + (b + [x] + c) + d, (a + b) + [x] + (c + d);
    assert |lhs| == |rhs|;
    forall i | 0 <= i < |lhs|
      ensures lhs[i] == rhs[i]
    {
      if i < |a| + |b| {
      } else if i == |a| + |b| {
      } else {
      }
    }
  }

  /** Where the equal node the descent stops at sits in the order. */
  function HoleIndex(t: Tree, key: int): nat
  {
    var d := Descend(t, key, true);
    |CtxLeft(d.ctx)| + (if d.hole.Node? then |InOrder(d.hole.left)| else 0)
  }

  /**
   * Replacing the equal node the descent stops at (unique keys) puts the
   * new node at that node's position.
   */
  lemma ReplacePosition(t: Tree, node: Obj)
    requires Descend(t, node.key, true).hole.Node?
    ensures HoleIndex(t, node.key) < |InOrder(t)|
    ensures InOrder(t)[HoleIndex(t, node.key)] == Descend(t, node.key, true).hole.obj
    ensures Descend(t, node.key, true).hole.obj.key == node.key
    ensures InOrder(Replaced(t, node)) == InOrder(t)[HoleIndex(t, node.key) := node]
  {
    var s, d := InOrder(t), Descend(t, node.key, true);
    DescendPlug(t, node.key, true);
    var Node(l, x, r) := d.hole;
    PlugNodeInOrder(d.ctx, l, x, r);
    PlugNodeInOrder(d.ctx, l, node, r);
    var a, b := CtxLeft(d.ctx) + InOrder(l), InOrder(r) + CtxRight(d.ctx);
    assert HoleIndex(t, node.key) == |a|;
    UpdateMiddle(a, x, node, b);
  }

  lemma UpdateMiddle(a: seq<Obj>, x: Obj, y: Obj, b: seq<Obj>)
    ensures (a + [x] + b)[|a|] == x
    ensures (a + [x] + b)[|a| := y] == a + [y] + b
  {
  }

  /** The replaced position is the first (last) only if the descent never turned right (left). */
  lemma ReplaceEnds(t: Tree, node: Obj)
    requires Descend(t, node.key, true).hole.Node?
    ensures HoleIndex(t, node.key) == 0 ==> NoRightTurn(Descend(t, node.key, true).ctx)
    ensures HoleIndex(t, node.key) == |InOrder(t)| - 1 ==> NoLeftTurn(Descend(t, node.key, true).ctx)
  {
    var d := Descend(t, node.key, true);
    DescendPlug(t, node.key, true);
    PlugNodeInOrder(d.ctx, d.hole.left, d.hole.obj, d.hole.right);
    NoRightTurnLeft(d.ctx);
    NoLeftTurnRight(d.ctx);
  }

  /** Replacing also keeps the order and the distinct ids. */
  lemma ReplaceOutcome(t: Tree, node: Obj)
    requires Sorted(InOrder(t), true) && DistinctIds(InOrder(t))
    requires forall i :: 0 <= i < |InOrder(t)| ==> InOrder(t)[i].id != node.id
    requires Descend(t, node.key, true).hole.Node?
    ensures Descend(t, node.key, true).hole.obj in InOrder(t)
    ensures IndexOf(InOrder(t), Descend(t, node.key, true).hole.obj) == HoleIndex(t, node.key)
    ensures Sorted(InOrder(Replaced(t, node)), true) && DistinctIds(InOrder(Replaced(t, node)))
  {
    ReplacePosition(t, node);
    IndexOfDistinct(InOrder(t), Descend(t, node.key, true).hole.obj, HoleIndex(t, node.key));
    ReplaceAt(InOrder(t), HoleIndex(t, node.key), node, true);
  }

  /* ---------------------------------------------------------------- */
  /* rb_erase, given its in-order meaning                              */

  /** Concatenate two trees in order. */
  function Join(l: Tree, r: Tree): (t: Tree)
    ensures InOrder(t) == InOrder(l) + InOrder(r)
  {
    match l
    case Leaf => r
    case Node(ll, o, lr) => Node(ll, o, Join(lr, r))
  }

  /** `rb_erase`: unlink the node, keeping the order of everything else. */
  function Erase(t: Tree, o: Obj): (r: Tree)
  {
    match t
    case Leaf => Leaf
    case Node(l, x, rt) =>
      if x == o then Join(Erase(l, o), Erase(rt, o)) else Node(Erase(l, o), x, Erase(rt, o))
  }

  lemma RemoveOne(x: Obj, o: Obj)
    ensures Radix.Remove([x], o) == if x == o then [] else [x]
  {
    assert [x][1..] == [];
  }

  /** Removal from `a + [x] + b`, piece by piece. */
  lemma RemoveThree(a: seq<Obj>, x: Obj, b: seq<Obj>, o: Obj)
    ensures Radix.Remove(a + [x] + b, o)
         == Radix.Remove(a, o) + (if x == o then [] else [x]) + Radix.Remove(b, o)
  {
    RemoveAppend(a + [x], b, o);
    RemoveAppend(a, [x], o);
    RemoveOne(x, o);
  }

  lemma {:induction false} EraseInOrder(t: Tree, o: Obj)
    ensures InOrder(Erase(t, o)) == Radix.Remove(InOrder(t), o)
  {
    match t
    case Leaf =>
    case Node(l, x, rt) =>
      EraseInOrder(l, o);
      EraseInOrder(rt, o);
      var mid: seq<Obj> := if x == o then [] else [x];
      RemoveThree(InOrder(l), x, InOrder(rt), o);
      EraseNodeInOrder(l, x, rt, o);
      assert InOrder(Erase(t, o)) == Radix.Remove(InOrder(l), o) + mid + Radix.Remove(InOrder(rt), o);
  }

  lemma EraseNodeInOrder(l: Tree, x: Obj, rt: Tree, o: Obj)
    ensures InOrder(Erase(Node(l, x, rt), o))
         == InOrder(Erase(l, o)) + (if x == o then [] else [x]) + InOrder(Erase(rt, o))
  {
    if x == o {
      assert InOrder(Erase(l, o)) + [] == InOrder(Erase(l, o));
    }
  }

  /**
   * Removing a node: the rest keeps its order, and the first (last) node
   * afterwards is the removed node's successor (predecessor) when it was
   * the first (last), and unchanged otherwise.
   */
  lemma EraseOutcome(t: Tree, o: Obj, unique: bool)
    requires Sorted(InOrder(t), unique) && DistinctIds(InOrder(t)) && o in InOrder(t)
    ensures var s, s' := InOrder(t), InOrder(Erase(t, o));
      && s' == Radix.Remove(s, o) && |s'| == |s| - 1
      && Sorted(s', unique) && DistinctIds(s')
      && First(s') == (if First(s) == Some(o) then Next(s, o) else First(s))
      && Last(s') == (if Last(s) == Some(o) then Prev(s, o) else Last(s))
  {
    var s := InOrder(t);
    var i := IndexOf(s, o);
    EraseInOrder(t, o);
    RemoveAt(s, i);
    DeleteAt(s, i, unique);
    if First(s) == Some(o) {
      IndexOfDistinct(s, o, 0);
    }
    if Last(s) == Some(o) {
      IndexOfDistinct(s, o, |s| - 1);
    }
  }

  /**
   * Inserting a node equal to the only node of a unique-key tree without
   * replacing: the descent stops at once, so `leftmost` and `rightmost`
   * are both set to the rejected node, which is not in the tree.
   */
  lemma RejectedDuplicateSetsEnds()
    ensures var t, node := Node(Leaf, Obj(1, 5), Leaf), Obj(2, 5);
      var d := Descend(t, node.key, true);
      && d.hole.Node? && NoRightTurn(d.ctx) && NoLeftTurn(d.ctx)
      && node !in InOrder(t)
  {
    var t := Node(Leaf, Obj(1, 5), Leaf);
    assert InOrder(t) == [Obj(1, 5)];
  }

  /* ---------------------------------------------------------------- */
  /* The container                                                     */

  /** A container with an `rb_root` and, as its relationship says, leftmost, rightmost and count. */
  class Container {
    const rel: Rel
    var root: Tree
    var count: u64
    var leftmost: Option<Obj>
    var rightmost: Option<Obj>

    constructor(rel: Rel)
      ensures this.rel == rel
    {
      this.rel := rel;
    }

    /** A valid relationship and a search tree without repeated nodes. */
    ghost predicate Valid()
      reads this
    {
      GoodRelOf(rel) && Sorted(InOrder(root), rel.unique) && DistinctIds(InOrder(root))
    }

    /** The optional fields hold what their flags promise. */
    ghost predicate Tracked()
      reads this
    {
      && (rel.leftmost ==> leftmost == First(InOrder(root)))
      && (rel.rightmost ==> rightmost == Last(InOrder(root)))
      && (rel.count ==> count == |InOrder(root)| % U64)
    }

    /**
     * `rb_insert`.  Descend from the root keeping `p` (the hole) and the
     * path to it; `leftmost`/`rightmost` remember whether the descent
     * ever turned right/left.  Then update the end pointers and leave the
     * rest to the epilogue.
     */
    method Insert(node: Obj) returns (found: Option<Obj>)
      requires Valid()
      requires forall i :: 0 <= i < |InOrder(root)| ==> InOrder(root)[i].id != node.id
      modifies this
      ensures Valid()
      ensures found.Some? ==> rel.unique && found.value in old(InOrder(root)) && found.value.key == node.key
      ensures found.None? ==> !rel.unique || NoKey(old(InOrder(root)), node.key)
      ensures found.None? ==> InOrder(root) == old(var s := InOrder(root); var k := CountBelow(s, node.key);
                                            s[..k] + [node] + s[k..])
      ensures found.None? ==> count == if rel.count then Inc64(old(count)) else old(count)
      ensures found.Some? && !rel.replacing ==> root == old(root) && count == old(count)
      ensures found.Some? && rel.replacing ==>
        count == old(count) && InOrder(root) == old(InOrder(root)[IndexOf(InOrder(root), found.value) := node])
      ensures found.None? ==>
        leftmost == if rel.leftmost && old(CountBelow(InOrder(root), node.key)) == 0 then Some(node) else old(leftmost)
      ensures found.None? ==>
        rightmost == if rel.rightmost && old(CountBelow(InOrder(root), node.key) == |InOrder(root)|) then Some(node)
                     else old(rightmost)
      ensures var d := old(Descend(root, node.key, rel.unique));
        leftmost == if rel.leftmost && NoRightTurn(d.ctx) && (!rel.replacing || found.None? || old(leftmost) == found)
                    then Some(node) else old(leftmost)
      ensures var d := old(Descend(root, node.key, rel.unique));
        rightmost == if rel.rightmost && NoLeftTurn(d.ctx) && (!rel.replacing || found.None? || old(rightmost) == found)
                     then Some(node) else old(rightmost)
      ensures old(Tracked()) && (found.None? || rel.replacing) ==> Tracked()
    {
      ghost var t, s := root, InOrder(root);
      ghost var d := Descend(root, node.key, rel.unique);
      var ctx, p, leftmostPath, rightmostPath := InsertDescend(node.key);
      if rel.leftmost && leftmostPath {
        if !rel.replacing || p.Leaf? || leftmost == Some(p.obj) {
          leftmost := Some(node);
        }
      }
      if rel.rightmost && rightmostPath {
        if !rel.replacing || p.Leaf? || rightmost == Some(p.obj) {
          rightmost := Some(node);
        }
      }
      ghost var lm, rm := leftmost, rightmost;
      found := InsertEpilogue(ctx, node, p);
      InsertFacts(t, node, rel, old(count), old(leftmost), old(rightmost), lm, rm, found, root, count);
    }

    /** The descent loop of `rb_insert`. */
    method InsertDescend(key: int) returns (ctx: seq<Frame>, p: Tree, leftmostPath: bool, rightmostPath: bool)
      ensures Descend(root, key, rel.unique) == Path(ctx, p)
      ensures leftmostPath <==> NoRightTurn(ctx)
      ensures rightmostPath <==> NoLeftTurn(ctx)
    {
      ctx, p := [], root;
      leftmostPath, rightmostPath := true, true;
      while p.Node?
        invariant Descend(root, key, rel.unique) ==
          Path(ctx + Descend(p, key, rel.unique).ctx, Descend(p, key, rel.unique).hole)
        invariant leftmostPath <==> NoRightTurn(ctx)
        invariant rightmostPath <==> NoLeftTurn(ctx)
        decreases p
      {
        var diff := Compare(key, p.obj.key);
        if diff > 0 {
          DescendStep(ctx, p, key, rel.unique);
          NoTurnAppend(ctx, WentRight(p.left, p.obj));
          ctx, p := ctx + [WentRight(p.left, p.obj)], p.right;
          leftmostPath := false;
        } else if !rel.unique || diff < 0 {
          DescendStep(ctx, p, key, rel.unique);
          NoTurnAppend(ctx, WentLeft(p.obj, p.right));
          ctx, p := ctx + [WentLeft(p.obj, p.right)], p.left;
          rightmostPath := false;
        } else {
          assert Descend(p, key, rel.unique) == Path([], p);
          assert ctx + [] == ctx;
          break;
        }
      }
      assert ctx + [] == ctx;
    }

    /**
     * `__rb_insert_epilogue`: with unique keys and an equal node found,
     * either put the new node in its place (`rb_replace_node`) or change
     * nothing; otherwise link the node at the hole (`rb_link_node`,
     * `rb_insert_color`) and count it.  Returns the node found.
     */
    method InsertEpilogue(ctx: seq<Frame>, node: Obj, found: Tree) returns (r: Option<Obj>)
      modifies this
      ensures r == if found.Node? then Some(found.obj) else None
      ensures rel.unique && found.Node? ==>
        count == old(count) && root == if rel.replacing then Plug(ctx, Node(found.left, node, found.right)) else old(root)
      ensures !(rel.unique && found.Node?) ==>
        root == Plug(ctx, Node(Leaf, node, Leaf)) && count == if rel.count then Inc64(old(count)) else old(count)
      ensures leftmost == old(leftmost) && rightmost == old(rightmost)
    {
      if rel.unique && found.Node? {
        if rel.replacing {
          root := Plug(ctx, Node(found.left, node, found.right));
        }
      } else {
        root := Plug(ctx, Node(Leaf, node, Leaf));
        if rel.count {
          count := Inc64(count);
        }
      }
      r := if found.Node? then Some(found.obj) else None;
    }

    /**
     * `rb_remove`: move `leftmost` to the successor and `rightmost` to the
     * predecessor if they point at the node, erase it, and count it out.
     */
    method Remove(node: Obj)
      requires Valid() && node in InOrder(root)
      modifies this
      ensures Valid()
      ensures InOrder(root) == Radix.Remove(old(InOrder(root)), node)
      ensures |InOrder(root)| == old(|InOrder(root)|) - 1
      ensures leftmost == if rel.leftmost && old(leftmost) == Some(node) then old(Next(InOrder(root), node))
                         else old(leftmost)
      ensures rightmost == if rel.rightmost && old(rightmost) == Some(node) then old(Prev(InOrder(root), node))
                          else old(rightmost)
      ensures count == if rel.count then Dec64(old(count)) else old(count)
      ensures old(Tracked()) ==> Tracked()
    {
      EraseOutcome(root, node, rel.unique);
      if Tracked() {
        EraseTracked(root, node, rel, count, leftmost, rightmost);
      }
      if rel.leftmost && leftmost == Some(node) {
        leftmost := Next(InOrder(root), node);
      }
      if rel.rightmost && rightmost == Some(node) {
        rightmost := Prev(InOrder(root), node);
      }
      root := Erase(root, node);
      if rel.count {
        count := Dec64(count);
      }
    }
  }

  /** The value-level reasoning behind `Container.Insert`'s promises. */
  lemma InsertFacts(t: Tree, node: Obj, rel: Rel, c0: u64, lm0: Option<Obj>, rm0: Option<Obj>,
                    lm: Option<Obj>, rm: Option<Obj>, found: Option<Obj>, t': Tree, c: u64)
    requires GoodRelOf(rel) && Sorted(InOrder(t), rel.unique) && DistinctIds(InOrder(t))
    requires forall i :: 0 <= i < |InOrder(t)| ==> InOrder(t)[i].id != node.id
    requires var d := Descend(t, node.key, rel.unique);
      && found == (if d.hole.Node? then Some(d.hole.obj) else None)
      && lm == (if rel.leftmost && NoRightTurn(d.ctx) && (!rel.replacing || d.hole.Leaf? || lm0 == Some(d.hole.obj))
                then Some(node) else lm0)
      && rm == (if rel.rightmost && NoLeftTurn(d.ctx) && (!rel.replacing || d.hole.Leaf? || rm0 == Some(d.hole.obj))
                then Some(node) else rm0)
      && (rel.unique && d.hole.Node? ==> c == c0 && t' == if rel.replacing then Replaced(t, node) else t)
      && (!(rel.unique && d.hole.Node?) ==>
            t' == Linked(t, node, rel.unique) && c == if rel.count then Inc64(c0) else c0)
    ensures Sorted(InOrder(t'), rel.unique) && DistinctIds(InOrder(t'))
    ensures found.Some? ==> rel.unique && found.value in InOrder(t) && found.value.key == node.key
    ensures found.None? ==> !rel.unique || NoKey(InOrder(t), node.key)
    ensures found.None? ==> var s := InOrder(t); var k := CountBelow(s, node.key);
      InOrder(t') == s[..k] + [node] + s[k..] && c == (if rel.count then Inc64(c0) else c0)
      && lm == (if rel.leftmost && k == 0 then Some(node) else lm0)
      && rm == (if rel.rightmost && k == |s| then Some(node) else rm0)
    ensures found.Some? && !rel.replacing ==> t' == t && c == c0
    ensures found.Some? && rel.replacing ==>
      c == c0 && InOrder(t') == InOrder(t)[IndexOf(InOrder(t), found.value) := node]
    ensures (found.None? || rel.replacing) && TrackedState(t, c0, lm0, rm0, rel) ==> TrackedState(t', c, lm, rm, rel)
  {
    var s, d := InOrder(t), Descend(t, node.key, rel.unique);
    GoodRelFlags(rel);
    DescendPlug(t, node.key, rel.unique);
    if d.hole.Leaf? {
      LinkPosition(t, node, rel.unique);
      LinkOrder(t, node, rel.unique);
      LinkEnds(t, node, rel.unique);
      if rel.unique {
        LinkNoKey(t, node.key);
      }
      if TrackedState(t, c0, lm0, rm0, rel) {
        LinkTracked(t, node, rel, c0, lm0, rm0);
      }
    } else {
      ReplacePosition(t, node);
      ReplaceEnds(t, node);
      ReplaceOutcome(t, node);
      if rel.replacing && TrackedState(t, c0, lm0, rm0, rel) {
        ReplaceTracked(t, node, rel, c0, lm0, rm0);
      }
    }
  }

  /** Linking keeps the end pointers and the count right. */
  lemma LinkTracked(t: Tree, node: Obj, rel: Rel, c0: u64, lm0: Option<Obj>, rm0: Option<Obj>)
    requires Sorted(InOrder(t), rel.unique)
    requires Descend(t, node.key, rel.unique).hole.Leaf?
    requires TrackedState(t, c0, lm0, rm0, rel)
    ensures TrackedState(Linked(t, node, rel.unique), if rel.count then Inc64(c0) else c0,
      if rel.leftmost && NoRightTurn(Descend(t, node.key, rel.unique).ctx) then Some(node) else lm0,
      if rel.rightmost && NoLeftTurn(Descend(t, node.key, rel.unique).ctx) then Some(node) else rm0, rel)
  {
    LinkSplit(t, node, rel.unique);
    LinkEnds(t, node, rel.unique);
    if rel.count {
      CountWraps(|InOrder(t)|, c0);
    }
  }

  /** Replacing keeps the end pointers and the count right. */
  lemma ReplaceTracked(t: Tree, node: Obj, rel: Rel, c0: u64, lm0: Option<Obj>, rm0: Option<Obj>)
    requires Sorted(InOrder(t), true) && DistinctIds(InOrder(t))
    requires forall i :: 0 <= i < |InOrder(t)| ==> InOrder(t)[i].id != node.id
    requires Descend(t, node.key, true).hole.Node?
    requires TrackedState(t, c0, lm0, rm0, rel)
    ensures var d := Descend(t, node.key, true);
      TrackedState(Replaced(t, node), c0,
        if rel.leftmost && NoRightTurn(d.ctx) && lm0 == Some(d.hole.obj) then Some(node) else lm0,
        if rel.rightmost && NoLeftTurn(d.ctx) && rm0 == Some(d.hole.obj) then Some(node) else rm0, rel)
  {
    var s, h := InOrder(t), Descend(t, node.key, true).hole;
    ReplacePosition(t, node);
    ReplaceEnds(t, node);
    if lm0 == Some(h.obj) && rel.leftmost {
      IndexOfDistinct(s, h.obj, 0);
    }
    if rm0 == Some(h.obj) && rel.rightmost {
      IndexOfDistinct(s, h.obj, |s| - 1);
    }
  }

  /** Erasing keeps the end pointers and the count right. */
  lemma EraseTracked(t: Tree, o: Obj, rel: Rel, c0: u64, lm0: Option<Obj>, rm0: Option<Obj>)
    requires Sorted(InOrder(t), rel.unique) && DistinctIds(InOrder(t)) && o in InOrder(t)
    requires TrackedState(t, c0, lm0, rm0, rel)
    ensures TrackedState(Erase(t, o), if rel.count then Dec64(c0) else c0,
      if rel.leftmost && lm0 == Some(o) then Next(InOrder(t), o) else lm0,
      if rel.rightmost && rm0 == Some(o) then Prev(InOrder(t), o) else rm0, rel)
  {
    EraseOutcome(t, o, rel.unique);
    if rel.count {
      CountWraps(|InOrder(t)|, c0);
    }
  }

  /** `Container.Tracked` on values. */
  ghost predicate TrackedState(t: Tree, count: u64, leftmost: Option<Obj>, rightmost: Option<Obj>, rel: Rel)
  {
    && (rel.leftmost ==> leftmost == First(InOrder(t)))
    && (rel.rightmost ==> rightmost == Last(InOrder(t)))
    && (rel.count ==> count == |InOrder(t)| % U64)
  }
}
