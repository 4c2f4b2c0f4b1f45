/**
 * One `struct rb_node`: the parent pointer and the colour share one
 * machine word (`rb_parent_color`).  Nodes are aligned to the size of a
 * long, so the two low bits of a node address are zero; bit 0 holds the
 * colour (0 red, 1 black) and bit 1 is unused.  Addresses are 64-bit
 * words, NULL is 0.
 */
module RbNode {

  const RED: bv64 := 0
  const BLACK: bv64 := 1
  const NULL: bv64 := 0

  /** A node address: aligned to `sizeof(long)`, so its low bits are clear. */
  predicate Aligned(p: bv64)
  {
    p & 7 == 0
  }

  /** `rb_parent`: the word with its two low bits cleared. */
  function Parent(w: bv64): (p: bv64)
    ensures p & 3 == 0
    ensures Aligned(w) ==> p == w
  {
    w & !3
  }

  /** `rb_color`: bit 0 of the word. */
  function Color(w: bv64): (c: bv64)
    ensures c == RED || c == BLACK
    ensures c == BLACK <==> w & 1 == 1
  {
    w & 1
  }

  /** `rb_set_parent`: keep the two low bits, store the new parent above them. */
  function WithParent(w: bv64, p: bv64): (r: bv64)
  {
    (w & 3) | p
  }

  /** `rb_set_color`: keep every bit but bit 0, or the colour into it. */
  function WithColor(w: bv64, color: bv64): (r: bv64)
  {
    (w & !1) | color
  }

  /** `rb_set_red` and `rb_set_black`. */
  function SetRed(w: bv64): (r: bv64)
  {
    w & !1
  }

  function SetBlack(w: bv64): (r: bv64)
  {
    w | 1
  }

  /**
   * Setting an aligned parent reads back as that parent and keeps the
   * colour and the unused bit 1.
   */
  lemma SetParentKeepsColor(w: bv64, p: bv64)
    requires Aligned(p)
    ensures Parent(WithParent(w, p)) == p
    ensures Color(WithParent(w, p)) == Color(w)
    ensures WithParent(w, p) & 2 == w & 2
  {
  }

  /** Setting a colour of 0 or 1 reads back as that colour... */
  lemma SetColorReadsBack(w: bv64, color: bv64)
    requires color == RED || color == BLACK
    ensures Color(WithColor(w, color)) == color
  {
  }

  /** ...and keeps the parent. */
  lemma SetColorKeepsParent(w: bv64, color: bv64)
    requires color == RED || color == BLACK
    ensures Parent(WithColor(w, color)) == Parent(w)
  {
  }

  /** The red and black setters are `rb_set_color` with the fixed colours. */
  lemma SetRedBlack(w: bv64)
    ensures SetRed(w) == WithColor(w, RED)
    ensures SetBlack(w) == WithColor(w, BLACK)
  {
  }

  class Node {
    /** The node's own address. */
    const addr: bv64
    var parentColor: bv64
    var right: bv64
    var left: bv64

    constructor(addr: bv64)
      requires Aligned(addr) && addr != NULL
      ensures this.addr == addr
    {
      this.addr := addr;
    }

    /** `RB_EMPTY_NODE`: the node is its own parent, i.e. in no tree. */
    predicate EmptyNode()
      reads this
    {
      Parent(parentColor) == addr
    }

    /**
     * `rb_init_node`: clear the word and both children, then mark the
     * node empty by making it its own parent (`RB_CLEAR_NODE`).
     */
    method Init()
      requires Aligned(addr)
      modifies this
      ensures left == NULL && right == NULL
      ensures EmptyNode() && Color(parentColor) == RED
    {
      parentColor := 0;
      right := NULL;
      left := NULL;
      parentColor := WithParent(parentColor, addr);
      SetParentKeepsColor(0, addr);
    }

    /**
     * `rb_link_node`, the node's half: the word becomes the parent
     * pointer (so the node is red) and both children are cleared.  The
     * store `*rb_link = node` into the parent is the tree's half, done by
     * `RbTree.Container.Insert`.
     */
    method Link(parent: bv64)
      requires Aligned(parent)
      modifies this
      ensures parentColor == parent && left == NULL && right == NULL
      ensures Parent(parentColor) == parent && Color(parentColor) == RED
      ensures parent != addr ==> !EmptyNode()
    {
      parentColor := parent;
      left := NULL;
      right := NULL;
    }
  }
}
