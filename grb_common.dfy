/**
 * The shared part of the generic rbtree test harness: the test kinds, the
 * test object (an `rb_node` and a key) and the test container (an rbtree
 * with leftmost, rightmost and count, and the index of the pool in use).
 */
module GrbCommon {
  import opened Base
  import RbNode
  import RbTree

  /** `enum grbtest_type`. */
  datatype TestType = Insertion | InsertionDeletion | ValidateInsertions

  /** `GRBTEST_TYPE_COUNT`: the enumerator after the last kind. */
  const TYPE_COUNT: nat := 3

  /** The enumerator's value. */
  function TypeIndex(t: TestType): (i: nat)
    ensures i < TYPE_COUNT
  {
    match t
    case Insertion => 0
    case InsertionDeletion => 1
    case ValidateInsertions => 2
  }

  /** The kind a number selects, if any. */
  function TypeOf(i: nat): (r: Option<TestType>)
    ensures r.Some? <==> i < TYPE_COUNT
  {
    if i == 0 then Some(Insertion)
    else if i == 1 then Some(InsertionDeletion)
    else if i == 2 then Some(ValidateInsertions)
    else None
  }

  /** The kinds and the numbers below `TYPE_COUNT` correspond one to one. */
  lemma TypeRoundTrip(t: TestType, i: nat)
    ensures TypeOf(TypeIndex(t)) == Some(t)
    ensures i < TYPE_COUNT ==> TypeIndex(TypeOf(i).value) == i
  {
  }

  /** `struct object`: an rbtree node and its key. */
  class Object {
    const node: RbNode.Node
    var key: int

    constructor(node: RbNode.Node)
      ensures this.node == node
    {
      this.node := node;
    }

    /** `is_inserted`: the node is not its own parent. */
    predicate IsInserted()
      reads this, node
    {
      RbNode.Parent(node.parentColor) != node.addr
    }

    /** `init_object`: clear the node (`rb_init_node`) and set the key. */
    method InitObject(key: int)
      requires RbNode.Aligned(node.addr)
      modifies this, node
      ensures this.key == key
      ensures node.left == RbNode.NULL && node.right == RbNode.NULL
      ensures !IsInserted()
    {
      node.Init();
      this.key := key;
    }
  }

  /** `struct container`: the rbtree with its optional fields, and the pool index. */
  class TestContainer {
    const rb: RbTree.Container
    var poolInUse: u32

    constructor(rb: RbTree.Container)
      ensures this.rb == rb
    {
      this.rb := rb;
    }

    /**
     * `init_container`: an empty root (`RB_ROOT`), a zero count and no
     * leftmost or rightmost; `pool_in_use` is left as it was.  The result
     * is a valid tree whose optional fields are right.
     */
    method InitContainer()
      modifies rb
      ensures rb.root == RbTree.Leaf && rb.count == 0
      ensures rb.leftmost == None && rb.rightmost == None
      ensures poolInUse == old(poolInUse)
      ensures RbTree.GoodRelOf(rb.rel) ==> rb.Valid() && rb.Tracked()
    {
      rb.root := RbTree.Leaf;
      rb.count := 0;
      rb.leftmost := None;
      rb.rightmost := None;
    }
  }
}
