/*********************************************************************
 * Node capability of the threaded red-black tree.
 *
 * A node is a caller-owned record with two child slots and a status
 * byte.  Bit 0 of the byte is the colour (1 = red), bit 1 says whether
 * the left slot holds a subtree (1, "data") or a thread to the in-order
 * predecessor (0), bit 2 does the same for the right slot and the
 * in-order successor.  The records live in the caller's memory, modelled
 * here as an arena of records addressed by stable pointers.
 *********************************************************************/
module RbtInternal {

  /** An address in the caller's memory.  Address 0 is the null pointer. */
  type Ptr = nat

  const NULL: Ptr := 0

  /** The status byte of a node. */
  type Status = bv8

  const RED_BIT: Status := 1
  const LEFT_BIT: Status := 2
  const RIGHT_BIT: Status := 4

  /** The byte a node carries for the given colour and slot kinds. */
  function StatusOf(red: bool, leftData: bool, rightData: bool): (s: Status)
    ensures IsRed(s) == red && IsLeftData(s) == leftData && IsRightData(s) == rightData
    ensures s < 8
  {
    (if red then RED_BIT else 0) | (if leftData then LEFT_BIT else 0) | (if rightData then RIGHT_BIT else 0)
  }

  predicate IsRed(s: Status) {
    s & RED_BIT == RED_BIT
  }

  predicate IsBlack(s: Status): (b: bool)
    ensures b == !IsRed(s)
  {
    s & RED_BIT != RED_BIT
  }

  predicate IsLeftData(s: Status) {
    s & LEFT_BIT == LEFT_BIT
  }

  predicate IsLeftThrd(s: Status): (b: bool)
    ensures b == !IsLeftData(s)
  {
    s & LEFT_BIT != LEFT_BIT
  }

  predicate IsRightData(s: Status) {
    s & RIGHT_BIT == RIGHT_BIT
  }

  predicate IsRightThrd(s: Status): (b: bool)
    ensures b == !IsRightData(s)
  {
    s & RIGHT_BIT != RIGHT_BIT
  }

  /** A byte below 8 is exactly the encoding of its three decoded bits. */
  lemma StatusDecode(s: Status)
    requires s < 8
    ensures s == StatusOf(IsRed(s), IsLeftData(s), IsRightData(s))
  {
  }

  /** The byte values unlink_from_tree switches on: 0 and 1 a black or red
      node without children, 2 and 4 a black node with only a left or only
      a right child, 6 and 7 a node with two children, 3 and 5 a red node
      with one child. */
  lemma StatusCases(red: bool, leftData: bool, rightData: bool)
    ensures StatusOf(red, leftData, rightData) == 0 <==> !red && !leftData && !rightData
    ensures StatusOf(red, leftData, rightData) == 1 <==> red && !leftData && !rightData
    ensures StatusOf(red, leftData, rightData) == 2 <==> !red && leftData && !rightData
    ensures StatusOf(red, leftData, rightData) == 3 <==> red && leftData && !rightData
    ensures StatusOf(red, leftData, rightData) == 4 <==> !red && !leftData && rightData
    ensures StatusOf(red, leftData, rightData) == 5 <==> red && !leftData && rightData
    ensures StatusOf(red, leftData, rightData) == 6 <==> !red && leftData && rightData
    ensures StatusOf(red, leftData, rightData) == 7 <==> red && leftData && rightData
  {
  }

  // The set_* macros: each one changes its own bit and no other.

  function WithRed(s: Status): (r: Status)
    ensures IsRed(r) && r & !RED_BIT == s & !RED_BIT
    ensures IsLeftData(r) == IsLeftData(s) && IsRightData(r) == IsRightData(s)
    ensures s < 8 ==> r == StatusOf(true, IsLeftData(s), IsRightData(s))
  {
    s | RED_BIT
  }

  function WithBlack(s: Status): (r: Status)
    ensures !IsRed(r) && r & !RED_BIT == s & !RED_BIT
    ensures IsLeftData(r) == IsLeftData(s) && IsRightData(r) == IsRightData(s)
    ensures s < 8 ==> r == StatusOf(false, IsLeftData(s), IsRightData(s))
  {
    s & !RED_BIT
  }

  function WithLeftThrd(s: Status): (r: Status)
    ensures IsLeftThrd(r) && r & !LEFT_BIT == s & !LEFT_BIT
    ensures IsRed(r) == IsRed(s) && IsRightData(r) == IsRightData(s)
    ensures s < 8 ==> r == StatusOf(IsRed(s), false, IsRightData(s))
  {
    s & !LEFT_BIT
  }

  function WithLeftData(s: Status): (r: Status)
    ensures IsLeftData(r) && r & !LEFT_BIT == s & !LEFT_BIT
    ensures IsRed(r) == IsRed(s) && IsRightData(r) == IsRightData(s)
    ensures s < 8 ==> r == StatusOf(IsRed(s), true, IsRightData(s))
  {
    s | LEFT_BIT
  }

  function WithRightThrd(s: Status): (r: Status)
    ensures IsRightThrd(r) && r & !RIGHT_BIT == s & !RIGHT_BIT
    ensures IsRed(r) == IsRed(s) && IsLeftData(r) == IsLeftData(s)
    ensures s < 8 ==> r == StatusOf(IsRed(s), IsLeftData(s), false)
  {
    s & !RIGHT_BIT
  }

  function WithRightData(s: Status): (r: Status)
    ensures IsRightData(r) && r & !RIGHT_BIT == s & !RIGHT_BIT
    ensures IsRed(r) == IsRed(s) && IsLeftData(r) == IsLeftData(s)
    ensures s < 8 ==> r == StatusOf(IsRed(s), IsLeftData(s), true)
  {
    s | RIGHT_BIT
  }

  /** The Node Capability fields of one record, and the key the comparators read. */
  datatype NodeRec = NodeRec(left: Ptr, right: Ptr, status: Status, key: int)

  /** The caller's memory: the records the tree links through, and a log of
      the records handed to the caller's freeNode hook. */
  class Memory {
    var nodes: map<Ptr, NodeRec>
    ghost var freed: seq<Ptr>

    constructor (records: map<Ptr, NodeRec>)
      ensures nodes == records && freed == []
    {
      nodes := records;
      freed := [];
    }

    /** The caller's freeNode hook: the record is released, which the model
        records in the log and nothing else. */
    method FreeNode(n: Ptr)
      modifies this
      ensures freed == old(freed) + [n] && nodes == old(nodes)
    {
      freed := freed + [n];
    }
  }
}
