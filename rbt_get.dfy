/*********************************************************************
 * Key search (rbt_get.c): descend by keyCmp, stop at a thread.
 *********************************************************************/
module RbtGet {
  import opened RbtInternal
  import opened RbtTree
  import opened RbtLinks
  import opened RbtTypes

  /** rbt_get: the node holding key, or NULL.  A node it returns always holds
      the key; in a search tree it finds the key whenever it is stored. */
  method Get(rbt: Rbt, mem: Memory, key: int) returns (r: Ptr)
    requires rbt.Threaded(mem)
    ensures r != NULL ==> r in IdSet(rbt.T) && r in mem.nodes && mem.nodes[r].key == key
    ensures SearchTree(rbt.T) ==> r == (if key in Contents(rbt.T) then Contents(rbt.T)[key] else NULL)
  {
    var node := rbt.root;
    if node == NULL {
      return NULL;
    }
    ghost var t := rbt.T;
    ghost var v, vlo, vhi := t, NULL, NULL;
    while true
      invariant v.Node? && node == v.id && Linked(mem.nodes, v, vlo, vhi) && IdSet(v) <= IdSet(t)
      invariant SearchTree(t) ==> SearchTree(v) && (key in Contents(t) <==> key in Contents(v))
      invariant SearchTree(t) && key in Contents(t) ==> Contents(t)[key] == Contents(v)[key]
      decreases v
    {
      var rc := Cmp(mem.nodes[node].key, key);
      if rc == 0 {
        return node;
      } else if rc > 0 {
        if SearchTree(t) {
          ContentsBelow(v, key);
        }
        if IsLeftThrd(mem.nodes[node].status) {
          return NULL;
        }
        node := mem.nodes[node].left;
        v, vhi := v.left, v.id;
      } else {
        if SearchTree(t) {
          ContentsAbove(v, key);
        }
        if IsRightThrd(mem.nodes[node].status) {
          return NULL;
        }
        node := mem.nodes[node].right;
        v, vlo := v.right, v.id;
      }
    }
  }
}
