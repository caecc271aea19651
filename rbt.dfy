/*********************************************************************
 * The tree handle and its public constants (rbt.h).
 *
 * The handle holds the root pointer, the node count and the definition
 * struct.  The ghost field T is the abstract tree the caller's records
 * currently spell out; Valid is the invariant every public operation
 * keeps, the one the validator in RbtTests checks.
 *********************************************************************/
module RbtTypes {
  import opened RbtInternal
  import opened RbtTree
  import opened RbtLinks

  const RC_OK: int := 0
  const RC_NOTFOUND: int := 1
  const RC_ERROR: int := -1

  /** The parts of the definition struct that change behaviour: whether the
      caller supplied the allocRoot and freeRoot hooks.  The comparators are
      the three-way comparison of integer keys (Cmp); the slot offsets are
      the fields of NodeRec. */
  datatype Def = Def(hasAllocRoot: bool, hasFreeRoot: bool)

  /** nodeCmp(a, b) and keyCmp(a, key) on integer keys. */
  function Cmp(a: int, b: int): (r: int)
    ensures r == 0 <==> a == b
    ensures r > 0 <==> a > b
  {
    if a < b then -1 else if a > b then 1 else 0
  }

  class Rbt {
    var root: Ptr
    var size: nat
    var def: Def
    /** The tree the records reachable from root spell out. */
    ghost var T: Tree
    /** Whether the handle itself was handed to the freeRoot hook. */
    ghost var released: bool

    /** A handle fresh from the allocRoot hook, set up as rbt_new does. */
    constructor (d: Def)
      ensures root == NULL && size == 0 && def == d && T == Nil && !released
    {
      root := NULL;
      size := 0;
      def := d;
      T := Nil;
      released := false;
    }

    /** The records from root are linked as T, with every thread pointing
        at the in-order neighbour and NULL at both ends. */
    ghost predicate Threaded(mem: Memory)
      reads this, mem
    {
      root == RootPtr(T) && UniqueIds(T) && Linked(mem.nodes, T, NULL, NULL)
    }

    /** Threaded, in search order, red-black, black root, and size counts
        the nodes. */
    ghost predicate Valid(mem: Memory)
      reads this, mem
    {
      && Threaded(mem)
      && SearchTree(T) && RB(T) && IsBlackRooted(T)
      && size == |InOrder(T)|
    }
  }
}
