/*********************************************************************
 * The handle's life cycle (rbt_new.c): creation, initialisation,
 * releasing every record, and the size query.
 *
 * The allocRoot hook is the parameter allocates (whether it returned
 * memory); the freeRoot hook is the ghost flag released of the handle;
 * the freeNode hook appends to the log Memory.freed.
 *********************************************************************/
module RbtNew {
  import opened RbtInternal
  import opened RbtTree
  import opened RbtLinks
  import opened RbtTypes

  /** The order free_node releases the records of t in: both subtrees
      (left first), then the node. */
  function PostOrder(t: Tree): seq<Ptr> {
    match t
    case Nil => []
    case Node(_, l, x, _, r) => PostOrder(l) + PostOrder(r) + [x]
  }

  /** free_node releases exactly the records of the tree, each of them
      once when the tree holds no record twice. */
  lemma {:induction false} PostOrderReleasesAll(t: Tree)
    ensures multiset(PostOrder(t)) == multiset(InOrder(t))
    ensures UniqueIds(t) ==> Distinct(PostOrder(t))
  {
    match t
    case Nil =>
    case Node(_, l, x, _, r) =>
      PostOrderReleasesAll(l);
      PostOrderReleasesAll(r);
      if UniqueIds(t) {
        PostOrderIds(l);
        PostOrderIds(r);
        DistinctJoin(PostOrder(l), PostOrder(r), x);
      }
  }

  lemma {:induction false} PostOrderIds(t: Tree)
    ensures forall z :: z in PostOrder(t) <==> z in IdSet(t)
  {
    match t
    case Nil =>
    case Node(_, l, x, _, r) =>
      PostOrderIds(l);
      PostOrderIds(r);
  }

  lemma DistinctJoin(a: seq<Ptr>, b: seq<Ptr>, x: Ptr)
    requires Distinct(a) && Distinct(b) && x !in a && x !in b
    requires forall z :: z in a ==> z !in b
    ensures Distinct(a + b + [x])
  {
    var s := a + b + [x];
    forall i, j | 0 <= i < j < |s|
      ensures s[i] != s[j]
    {
      if j < |a| {
      } else if i < |a| {
        assert s[i] in a;
        if j < |a| + |b| {
          assert s[j] == b[j - |a|];
        }
      } else if j < |a| + |b| {
        assert s[i] == b[i - |a|] && s[j] == b[j - |a|];
      } else {
        if i < |a| + |b| {
          assert s[i] == b[i - |a|];
        }
      }
    }
  }

  /** The freed log after free_node has walked t. */
  lemma ReleaseLog(log: seq<Ptr>, t: Tree)
    ensures multiset(log + PostOrder(t)) == multiset(log) + multiset(InOrder(t))
    ensures UniqueIds(t) ==> Distinct(PostOrder(t))
  {
    PostOrderReleasesAll(t);
  }

  /** rbt_new: NULL when there is no allocRoot hook or it returned no
      memory, and otherwise a fresh, empty handle over def. */
  method New(def: Def, allocates: bool) returns (r: Rbt?)
    ensures r == null <==> !def.hasAllocRoot || !allocates
    ensures r != null ==> fresh(r) && r.root == NULL && r.size == 0 && r.def == def && r.T == Nil && !r.released
  {
    if !def.hasAllocRoot {
      return null;
    }
    if !allocates {
      return null;
    }
    r := new Rbt(def);
  }

  /** An empty handle satisfies the invariant over any records. */
  lemma EmptyValid(rbt: Rbt, mem: Memory)
    requires rbt.root == NULL && rbt.size == 0 && rbt.T == Nil
    ensures rbt.Valid(mem)
  {
  }

  /** rbt_init: an existing handle becomes empty, over def. */
  method Init(rbt: Rbt, def: Def)
    modifies rbt
    ensures rbt.root == NULL && rbt.size == 0 && rbt.def == def && rbt.T == Nil
    ensures rbt.released == old(rbt.released)
  {
    rbt.root := NULL;
    rbt.size := 0;
    rbt.def := def;
    rbt.T := Nil;
  }

  /** free_node: the walk along data links only (the status bits say
      which slots hold them) that hands every record of the subtree t to
      the freeNode hook, children first. */
  method FreeNodes(mem: Memory, node: Ptr, ghost t: Tree, ghost lo: Ptr, ghost hi: Ptr)
    requires node == RootPtr(t) && NULL !in IdSet(t) && Linked(mem.nodes, t, lo, hi)
    modifies mem
    ensures mem.nodes == old(mem.nodes)
    ensures mem.freed == old(mem.freed) + PostOrder(t)
    decreases t
  {
    if node != NULL {
      NodeAt(mem.nodes, t, lo, hi);
      if IsLeftData(mem.nodes[node].status) {
        FreeNodes(mem, mem.nodes[node].left, t.left, lo, t.id);
      }
      if IsRightData(mem.nodes[node].status) {
        FreeNodes(mem, mem.nodes[node].right, t.right, t.id, hi);
      }
      mem.FreeNode(node);
    }
  }

  /** rbt_free: every record is released; then the handle itself goes to
      the freeRoot hook when there is one, and is left empty otherwise. */
  method Free(rbt: Rbt, mem: Memory)
    requires rbt.Threaded(mem)
    modifies rbt, mem
    ensures mem.nodes == old(mem.nodes)
    ensures mem.freed == old(mem.freed) + PostOrder(old(rbt.T))
    ensures Distinct(PostOrder(old(rbt.T))) && multiset(mem.freed) == multiset(old(mem.freed)) + multiset(InOrder(old(rbt.T)))
    ensures rbt.def.hasFreeRoot ==> rbt.released && rbt.root == old(rbt.root) && rbt.size == old(rbt.size)
    ensures !rbt.def.hasFreeRoot ==>
      rbt.released == old(rbt.released) && rbt.root == NULL && rbt.size == 0 && rbt.T == Nil
    ensures rbt.def == old(rbt.def)
  {
    LinkedIds(mem.nodes, rbt.T, NULL, NULL);
    ReleaseLog(mem.freed, rbt.T);
    FreeNodes(mem, rbt.root, rbt.T, NULL, NULL);
    if rbt.def.hasFreeRoot {
      rbt.released := true;
    } else {
      rbt.root := NULL;
      rbt.size := 0;
      rbt.T := Nil;
    }
  }

  /** rbt_clr: every record is released and the handle is left empty. */
  method Clr(rbt: Rbt, mem: Memory)
    requires rbt.Threaded(mem)
    modifies rbt, mem
    ensures mem.nodes == old(mem.nodes)
    ensures mem.freed == old(mem.freed) + PostOrder(old(rbt.T))
    ensures Distinct(PostOrder(old(rbt.T))) && multiset(mem.freed) == multiset(old(mem.freed)) + multiset(InOrder(old(rbt.T)))
    ensures rbt.root == NULL && rbt.size == 0 && rbt.T == Nil && rbt.Valid(mem)
    ensures rbt.def == old(rbt.def) && rbt.released == old(rbt.released)
  {
    LinkedIds(mem.nodes, rbt.T, NULL, NULL);
    ReleaseLog(mem.freed, rbt.T);
    FreeNodes(mem, rbt.root, rbt.T, NULL, NULL);
    rbt.root := NULL;
    rbt.size := 0;
    rbt.T := Nil;
  }

  /** rbt_clr2: the handle is left empty and no record is released (the
      records belong to another tree too). */
  method Clr2(rbt: Rbt)
    modifies rbt
    ensures rbt.root == NULL && rbt.size == 0 && rbt.T == Nil
    ensures rbt.def == old(rbt.def) && rbt.released == old(rbt.released)
  {
    rbt.root := NULL;
    rbt.size := 0;
    rbt.T := Nil;
  }

  /** rbt_size: the node count, which under the invariant is the number
      of records in the tree. */
  method Size(rbt: Rbt, mem: Memory) returns (n: nat)
    ensures n == rbt.size
    ensures rbt.Valid(mem) ==> n == |InOrder(rbt.T)| && n == |KeySet(rbt.T)|
  {
    n := rbt.size;
    if rbt.Valid(mem) {
      SizeIsKeyCount(rbt.T);
    }
  }

  /** A search tree holds as many keys as records. */
  lemma SizeIsKeyCount(t: Tree)
    requires SearchTree(t)
    ensures |InOrder(t)| == |KeySet(t)|
  {
    ContentsSize(t);
    ContentsKeys(t);
  }
}
