/*********************************************************************
 * In-order stepping along the threads (rbt_first.c): no stack and no
 * parent pointers.  Each operation is read-only.
 *********************************************************************/
module RbtFirst {
  import opened RbtInternal
  import opened RbtTree
  import opened RbtLinks
  import opened RbtTypes

  /** rbt_first: the smallest node, or NULL for an empty tree. */
  method First(rbt: Rbt, mem: Memory) returns (r: Ptr)
    requires rbt.Threaded(mem)
    ensures r == NULL <==> rbt.T.Nil?
    ensures rbt.T.Node? ==> r == InOrder(rbt.T)[0]
  {
    if rbt.root == NULL {
      return NULL;
    }
    var node := rbt.root;
    ghost var v, vlo, vhi := rbt.T, NULL, NULL;
    while IsLeftData(mem.nodes[node].status)
      invariant v.Node? && node == v.id && Linked(mem.nodes, v, vlo, vhi)
      invariant InOrder(v)[0] == InOrder(rbt.T)[0]
      decreases v
    {
      node := mem.nodes[node].left;
      v, vhi := v.left, v.id;
    }
    r := node;
  }

  /** rbt_last: the largest node, or NULL for an empty tree. */
  method Last(rbt: Rbt, mem: Memory) returns (r: Ptr)
    requires rbt.Threaded(mem)
    ensures r == NULL <==> rbt.T.Nil?
    ensures rbt.T.Node? ==> r == InOrder(rbt.T)[|InOrder(rbt.T)| - 1]
  {
    if rbt.root == NULL {
      return NULL;
    }
    var node := rbt.root;
    ghost var v, vlo, vhi := rbt.T, NULL, NULL;
    while IsRightData(mem.nodes[node].status)
      invariant v.Node? && node == v.id && Linked(mem.nodes, v, vlo, vhi)
      invariant InOrder(v)[|InOrder(v)| - 1] == InOrder(rbt.T)[|InOrder(rbt.T)| - 1]
      decreases v
    {
      node := mem.nodes[node].right;
      v, vlo := v.right, v.id;
    }
    r := node;
  }

  /** The position of a node in the in-order sequence, with the facts about
      the subtree it roots that stepping needs. */
  lemma Locate(rbt: Rbt, mem: Memory, node: Ptr) returns (i: nat)
    requires rbt.Threaded(mem) && node in IdSet(rbt.T)
    ensures i < |InOrder(rbt.T)| && InOrder(rbt.T)[i] == node
    ensures forall j | 0 <= j < |InOrder(rbt.T)| && InOrder(rbt.T)[j] == node :: j == i
    ensures SubAt(rbt.T, i).id == node
    ensures Linked(mem.nodes, SubAt(rbt.T, i), Before(rbt.T, i, NULL), After(rbt.T, i, NULL))
    ensures |InOrder(SubAt(rbt.T, i).left)| <= i
    ensures SubEnd(rbt.T, i) <= |InOrder(rbt.T)|
    ensures InOrder(SubAt(rbt.T, i)) == InOrder(rbt.T)[SubStart(rbt.T, i)..SubEnd(rbt.T, i)]
  {
    IdSetIsInOrder(rbt.T);
    InOrderDistinct(rbt.T);
    i :| 0 <= i < |InOrder(rbt.T)| && InOrder(rbt.T)[i] == node;
    SubAtLinked(mem.nodes, rbt.T, NULL, NULL, i);
    SubAtSlice(rbt.T, i);
  }

  /** The first record of the right subtree of the node at i follows it. */
  lemma RightSubtreeStart(t: Tree, i: nat)
    requires i < |InOrder(t)| && SubAt(t, i).right.Node?
    requires |InOrder(SubAt(t, i).left)| <= i && SubEnd(t, i) <= |InOrder(t)|
    requires InOrder(SubAt(t, i)) == InOrder(t)[SubStart(t, i)..SubEnd(t, i)]
    ensures i + 1 < |InOrder(t)| && InOrder(SubAt(t, i).right)[0] == InOrder(t)[i + 1]
  {
    var u := SubAt(t, i);
    var a := SubStart(t, i);
    assert InOrder(u) == InOrder(u.left) + [u.id] + InOrder(u.right);
    assert InOrder(u)[i + 1 - a] == InOrder(t)[i + 1];
  }

  /** The last record of the left subtree of the node at i precedes it. */
  lemma LeftSubtreeEnd(t: Tree, i: nat)
    requires i < |InOrder(t)| && SubAt(t, i).left.Node?
    requires |InOrder(SubAt(t, i).left)| <= i && SubEnd(t, i) <= |InOrder(t)|
    requires InOrder(SubAt(t, i)) == InOrder(t)[SubStart(t, i)..SubEnd(t, i)]
    ensures 0 < i && InOrder(SubAt(t, i).left)[|InOrder(SubAt(t, i).left)| - 1] == InOrder(t)[i - 1]
  {
    var u := SubAt(t, i);
    var a := SubStart(t, i);
    assert InOrder(u) == InOrder(u.left) + [u.id] + InOrder(u.right);
    assert InOrder(u)[i - 1 - a] == InOrder(t)[i - 1];
  }

  /** rbt_next: the in-order successor of a node of the tree, NULL after the
      last one and for a NULL argument. */
  method Next(rbt: Rbt, mem: Memory, node: Ptr) returns (r: Ptr)
    requires rbt.Threaded(mem)
    requires node != NULL ==> node in IdSet(rbt.T)
    ensures node == NULL ==> r == NULL
    ensures forall i {:trigger InOrder(rbt.T)[i]} | 0 <= i < |InOrder(rbt.T)| && InOrder(rbt.T)[i] == node ::
      r == (if i + 1 < |InOrder(rbt.T)| then InOrder(rbt.T)[i + 1] else NULL)
  {
    if node == NULL {
      LinkedIds(mem.nodes, rbt.T, NULL, NULL);
      IdSetIsInOrder(rbt.T);
      return NULL;
    }
    ghost var i := Locate(rbt, mem, node);
    ghost var s := InOrder(rbt.T);
    ghost var u := SubAt(rbt.T, i);
    if IsRightThrd(mem.nodes[node].status) {
      return mem.nodes[node].right;
    }
    RightSubtreeStart(rbt.T, i);
    var n := mem.nodes[node].right;
    ghost var v, vlo, vhi := u.right, node, After(rbt.T, i, NULL);
    while IsLeftData(mem.nodes[n].status)
      invariant v.Node? && n == v.id && Linked(mem.nodes, v, vlo, vhi)
      invariant InOrder(v)[0] == s[i + 1]
      decreases v
    {
      n := mem.nodes[n].left;
      v, vhi := v.left, v.id;
    }
    r := n;
  }

  /** rbt_prev: the in-order predecessor of a node of the tree, NULL before
      the first one and for a NULL argument. */
  method Prev(rbt: Rbt, mem: Memory, node: Ptr) returns (r: Ptr)
    requires rbt.Threaded(mem)
    requires node != NULL ==> node in IdSet(rbt.T)
    ensures node == NULL ==> r == NULL
    ensures forall i {:trigger InOrder(rbt.T)[i]} | 0 <= i < |InOrder(rbt.T)| && InOrder(rbt.T)[i] == node ::
      r == (if i > 0 then InOrder(rbt.T)[i - 1] else NULL)
  {
    if node == NULL {
      LinkedIds(mem.nodes, rbt.T, NULL, NULL);
      IdSetIsInOrder(rbt.T);
      return NULL;
    }
    ghost var i := Locate(rbt, mem, node);
    ghost var s := InOrder(rbt.T);
    ghost var u := SubAt(rbt.T, i);
    if IsLeftThrd(mem.nodes[node].status) {
      return mem.nodes[node].left;
    }
    LeftSubtreeEnd(rbt.T, i);
    var n := mem.nodes[node].left;
    ghost var v, vlo, vhi := u.left, Before(rbt.T, i, NULL), node;
    while IsRightData(mem.nodes[n].status)
      invariant v.Node? && n == v.id && Linked(mem.nodes, v, vlo, vhi)
      invariant InOrder(v)[|InOrder(v)| - 1] == s[i - 1]
      decreases v
    {
      n := mem.nodes[n].right;
      v, vlo := v.right, v.id;
    }
    r := n;
  }
}
