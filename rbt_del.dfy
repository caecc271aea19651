/*********************************************************************
 * Deletion on the caller's records (rbt_del.c).
 *
 * find_unlink_fix and the functions it calls write the new subtree root
 * through a pointer to the slot that holds it.  As in RbtInsert, each
 * method here returns the new slot value and its caller stores it; where
 * the C code leaves a slot as it is, the stored value is the one already
 * there.
 *
 * Each rebalancing step has a method doing the writes of the C code,
 * specified record by record (the *Done predicates), and a lemma proving
 * that those writes turn the linked subtree into the one the matching
 * function of RbtDelSpec builds, threads included.  FufHeap, the
 * recursive find_unlink_fix, is proved to spell out Fuf on the records.
 *
 * var->ajust_thread is on exactly when var->delmode is DELMODE_SEARCH.
 * After a walk to the smallest node of a subtree (DELMODE_GO_LEFT) the
 * thread adjustments are off, so the threads that pointed at the removed
 * record still do: the subtree left behind is linked with that record
 * as its lower neighbour, which is where the successor is moved to.
 *********************************************************************/
module RbtDel {
  import opened RbtInternal
  import opened RbtTree
  import opened RbtLinks
  import opened RbtTypes
  import opened RbtInsertSpec
  import opened RbtInsert
  import opened RbtDelSpec

  /** The neighbours the subtree left behind by Fuf is linked between. */
  function NewLo(mode: DelMode, d: DelRes, lo: Ptr): Ptr {
    if mode == GoLeft then d.removed else lo
  }

  function NewHi(mode: DelMode, d: DelRes, hi: Ptr): Ptr {
    if mode == GoRight then d.removed else hi
  }

  /** Rebalancing only regroups the records of a subtree. */
  lemma RegroupIds(t: Tree, u: Tree)
    requires SameOrder(t, u) && UniqueIds(t)
    ensures UniqueIds(u) && IdSet(u) == IdSet(t)
  {
    SameOrderKeeps(t, u);
  }

  // ---------------------------------------------------------------
  // balance_black_left: REMOVAL cases 3 and 4
  // ---------------------------------------------------------------

  /** The sibling s turns red and p black (p is black already in case 3). */
  ghost predicate Case34Done(h: Heap, h': Heap, p: Ptr, s: Ptr) {
    && p in h && s in h && p != s
    && h'.Keys == h.Keys
    && (forall z | z in h && z != p && z != s :: h'[z] == h[z])
    && h'[s] == h[s].(status := WithRed(h[s].status))
    && h'[p] == h[p].(status := WithBlack(h[p].status))
  }

  /** Case 3 (p black): s turns red and one black level is still missing.
      Case 4 (p red): s turns red, p black, and the deletion is complete. */
  method Case34Writes(mem: Memory, p: Ptr, s: Ptr) returns (short: bool)
    requires p in mem.nodes && s in mem.nodes && p != s && mem.nodes[p].status < 8
    modifies mem
    ensures short == IsBlack(old(mem.nodes[p].status))
    ensures Case34Done(old(mem.nodes), mem.nodes, p, s)
    ensures mem.freed == old(mem.freed)
  {
    var h: Heap := mem.nodes;
    StatusDecode(h[p].status);
    if IsBlack(h[p].status) {
      h := h[s := h[s].(status := WithRed(h[s].status))];
      short := true;
    } else {
      h := h[s := h[s].(status := WithRed(h[s].status))];
      h := h[p := h[p].(status := WithBlack(h[p].status))];
      short := false;
    }
    mem.nodes := h;
  }

  lemma Case34LeftLinked(h: Heap, h': Heap, c: Color, l: Tree, p: Ptr, kp: int, s: Tree, lo: Ptr, hi: Ptr)
    requires s.Node? && UniqueIds(Node(c, l, p, kp, s)) && Linked(h, Node(c, l, p, kp, s), lo, hi)
    requires Case34Done(h, h', p, s.id)
    ensures Linked(h', Node(Black, l, p, kp, Redden(s)), lo, hi)
    ensures SameOutside(h, h', {p, s.id})
  {
    NodeAt(h, Node(c, l, p, kp, s), lo, hi);
    NodeAt(h, s, p, hi);
    var w := {p, s.id};
    assert SameOutside(h, h', w);
    LinkedOutside(h, h', w, l, lo, p);
    LinkedOutside(h, h', w, s.left, p, s.id);
    LinkedOutside(h, h', w, s.right, s.id, hi);
    LinkedNode(h', Red, s.left, s.id, s.key, s.right, p, hi);
    LinkedNode(h', Black, l, p, kp, Redden(s), lo, hi);
  }

  // ---------------------------------------------------------------
  // balance_black_left: REMOVAL case 5
  // ---------------------------------------------------------------

  /** Case 5 is case 5 of insertion at the sibling: rotate right at s, the
      red left child goes up black and s comes down red; then p's right
      slot is repointed at the child. */
  method Rem5LeftHeap(mem: Memory, p: Ptr, ghost c: Color, ghost l: Tree, ghost kp: int, ghost s: Tree, ghost lo: Ptr, ghost hi: Ptr)
    requires s.Node? && IsRedNode(s.left)
    requires UniqueIds(Node(c, l, p, kp, s)) && Linked(mem.nodes, Node(c, l, p, kp, s), lo, hi)
    modifies mem
    ensures Linked(mem.nodes, Node(c, l, p, kp, Rem5Left(s)), lo, hi)
    ensures SameOutside(old(mem.nodes), mem.nodes, IdSet(Node(c, l, p, kp, s)))
    ensures mem.freed == old(mem.freed)
  {
    ghost var h0: Heap := mem.nodes;
    ghost var t := Node(c, l, p, kp, s);
    NodeAt(h0, t, lo, hi);
    NodeAt(h0, s, p, hi);
    NodeAt(h0, s.left, p, s.id);
    LinkedIds(h0, t, lo, hi);
    var sn := mem.nodes[p].right;
    var q := Case5LeftWrites(mem, sn);
    ghost var h1: Heap := mem.nodes;
    Case5LeftLinked(h0, h1, s.color, s.left, s.id, s.key, s.right, p, hi);
    assert Case5Left(s.left, s.id, s.key, s.right) == Rem5Left(s);
    Rem5LeftOrder(s);
    RegroupIds(s, Rem5Left(s));
    mem.nodes := mem.nodes[p := mem.nodes[p].(right := q)];
    AttachRight(h0, h1, mem.nodes, c, l, Rem5Left(s), p, kp, s, lo, hi, NULL);
  }

  // ---------------------------------------------------------------
  // balance_black_left: REMOVAL case 6
  // ---------------------------------------------------------------

  /** s takes p's colour, p and the red right child of s turn black, and s
      rotates up over p: p takes over the left subtree of s (or a thread to
      s) and becomes its left child. */
  ghost predicate Rem6LeftDone(h: Heap, h': Heap, p: Ptr, s: Ptr, n: Ptr) {
    && p in h && s in h && n in h && p != s && p != n && s != n
    && h'.Keys == h.Keys
    && (forall z | z in h && z != p && z != s && z != n :: h'[z] == h[z])
    && h'[n] == h[n].(status := WithBlack(h[n].status))
    && h'[p] == h[p].(right := if IsLeftData(h[s].status) then h[s].left else s,
                      status := StatusOf(false, IsLeftData(h[p].status), IsLeftData(h[s].status)))
    && h'[s] == h[s].(left := p, status := StatusOf(IsRed(h[p].status), true, IsRightData(h[s].status)))
  }

  /** The colour writes of case 6, done after the rotation: the old
      sibling q takes the colour of p, and p and the red child n of the
      old sibling turn black. */
  method Rem6Colours(mem: Memory, q: Ptr, p: Ptr, n: Ptr, red: bool, ghost lq: bool, ghost rq: bool, ghost lp: bool, ghost rp: bool)
    requires q in mem.nodes && p in mem.nodes && n in mem.nodes && q != p && q != n && p != n
    requires mem.nodes[q].status == StatusOf(false, lq, rq)
    requires mem.nodes[p].status == StatusOf(true, lp, rp)
    modifies mem
    ensures mem.nodes == old(mem.nodes)[q := old(mem.nodes[q]).(status := StatusOf(red, lq, rq))]
                                       [p := old(mem.nodes[p]).(status := StatusOf(false, lp, rp))]
                                       [n := old(mem.nodes[n]).(status := WithBlack(old(mem.nodes[n].status)))]
    ensures mem.freed == old(mem.freed)
  {
    var h: Heap := mem.nodes;
    h := h[q := h[q].(status := if red then WithRed(h[q].status) else WithBlack(h[q].status))];
    h := h[p := h[p].(status := WithBlack(h[p].status))];
    h := h[n := h[n].(status := WithBlack(h[n].status))];
    mem.nodes := h;
  }

  method Rem6LeftWrites(mem: Memory, p: Ptr) returns (q: Ptr)
    requires p in mem.nodes && mem.nodes[p].right in mem.nodes
    requires mem.nodes[mem.nodes[p].right].right in mem.nodes
    requires p != mem.nodes[p].right && p != mem.nodes[mem.nodes[p].right].right
    requires mem.nodes[p].right != mem.nodes[mem.nodes[p].right].right
    requires mem.nodes[p].status < 8 && mem.nodes[mem.nodes[p].right].status < 8
    requires IsRightData(mem.nodes[p].status) && IsRightData(mem.nodes[mem.nodes[p].right].status)
    modifies mem
    ensures q == old(mem.nodes[p].right)
    ensures Rem6LeftDone(old(mem.nodes), mem.nodes, p, q, old(mem.nodes[mem.nodes[p].right].right))
    ensures mem.freed == old(mem.freed)
  {
    ghost var h0: Heap := mem.nodes;
    var red := IsRed(mem.nodes[p].status);
    var n := mem.nodes[mem.nodes[p].right].right;
    q := Case5RightWrites(mem, p);
    ghost var h1: Heap := mem.nodes;
    Rem6Colours(mem, q, p, n, red, true, IsRightData(h0[q].status), IsLeftData(h0[p].status), IsLeftData(h0[q].status));
    Rem6Compose(h0, h1, mem.nodes, p, q, n);
  }

  lemma Rem6Compose(h0: Heap, h1: Heap, h2: Heap, p: Ptr, q: Ptr, n: Ptr)
    requires Case5RightDone(h0, h1, p, q) && n in h0 && n != p && n != q
    requires h2 == h1[q := h1[q].(status := StatusOf(IsRed(h0[p].status), true, IsRightData(h0[q].status)))]
                     [p := h1[p].(status := StatusOf(false, IsLeftData(h0[p].status), IsLeftData(h0[q].status)))]
                     [n := h1[n].(status := WithBlack(h1[n].status))]
    ensures Rem6LeftDone(h0, h2, p, q, n)
  {
    Rem6ComposeP(h0, h1, h2, p, q, n);
    Rem6ComposeQ(h0, h1, h2, p, q, n);
    Rem6Frame(h0, h1, h2, p, q, n, h2[q].status, h2[p].status);
  }

  /** The writes of case 6 touch three records only. */
  lemma Rem6Frame(h0: Heap, h1: Heap, h2: Heap, p: Ptr, q: Ptr, n: Ptr, sq: Status, sp: Status)
    requires p in h0 && q in h0 && n in h0 && n != p && n != q
    requires h1.Keys == h0.Keys && forall z | z in h0 && z != p && z != q :: h1[z] == h0[z]
    requires h2 == h1[q := h1[q].(status := sq)][p := h1[p].(status := sp)]
                     [n := h1[n].(status := WithBlack(h1[n].status))]
    ensures h2.Keys == h0.Keys && h2[n] == h0[n].(status := WithBlack(h0[n].status))
    ensures forall z | z in h0 && z != p && z != q && z != n :: h2[z] == h0[z]
  {
  }

  lemma Rem6ComposeP(h0: Heap, h1: Heap, h2: Heap, p: Ptr, q: Ptr, n: Ptr)
    requires Case5RightDone(h0, h1, p, q) && n in h0 && n != p && n != q
    requires h2 == h1[q := h1[q].(status := StatusOf(IsRed(h0[p].status), true, IsRightData(h0[q].status)))]
                     [p := h1[p].(status := StatusOf(false, IsLeftData(h0[p].status), IsLeftData(h0[q].status)))]
                     [n := h1[n].(status := WithBlack(h1[n].status))]
    ensures h2[p] == h0[p].(right := if IsLeftData(h0[q].status) then h0[q].left else q,
                            status := StatusOf(false, IsLeftData(h0[p].status), IsLeftData(h0[q].status)))
  {
  }

  lemma Rem6ComposeQ(h0: Heap, h1: Heap, h2: Heap, p: Ptr, q: Ptr, n: Ptr)
    requires Case5RightDone(h0, h1, p, q) && n in h0 && n != p && n != q
    requires h2 == h1[q := h1[q].(status := StatusOf(IsRed(h0[p].status), true, IsRightData(h0[q].status)))]
                     [p := h1[p].(status := StatusOf(false, IsLeftData(h0[p].status), IsLeftData(h0[q].status)))]
                     [n := h1[n].(status := WithBlack(h1[n].status))]
    ensures h2[q] == h0[q].(left := p, status := StatusOf(IsRed(h0[p].status), true, IsRightData(h0[q].status)))
  {
  }

  lemma Rem6LeftIds(c: Color, l: Tree, p: Ptr, kp: int, s: Tree)
    requires s.Node? && s.right.Node? && UniqueIds(Node(c, l, p, kp, s))
    ensures p != s.id && p != s.right.id && s.id != s.right.id
    ensures IdSet(l) !! {p, s.id, s.right.id} && IdSet(s.left) !! {p, s.id, s.right.id}
    ensures IdSet(s.right.left) !! {p, s.id, s.right.id} && IdSet(s.right.right) !! {p, s.id, s.right.id}
  {
    assert UniqueIds(s) && UniqueIds(s.right);
  }

  lemma Rem6LeftLinked(h: Heap, h': Heap, c: Color, l: Tree, p: Ptr, kp: int, s: Tree, lo: Ptr, hi: Ptr)
    requires s.Node? && s.right.Node? && UniqueIds(Node(c, l, p, kp, s)) && Linked(h, Node(c, l, p, kp, s), lo, hi)
    requires Rem6LeftDone(h, h', p, s.id, s.right.id)
    ensures Linked(h', Rem6Left(c, l, p, kp, s), lo, hi)
    ensures SameOutside(h, h', {p, s.id, s.right.id})
  {
    var Node(_, a, y, ky, b) := s;
    NodeAt(h, Node(c, l, p, kp, s), lo, hi);
    NodeAt(h, s, p, hi);
    NodeAt(h, b, y, hi);
    var w := {p, y, b.id};
    Rem6LeftIds(c, l, p, kp, s);
    assert SameOutside(h, h', w);
    LinkedOutside(h, h', w, l, lo, p);
    LinkedOutside(h, h', w, a, p, y);
    LinkedOutside(h, h', w, b.left, y, b.id);
    LinkedOutside(h, h', w, b.right, b.id, hi);
    LinkedNode(h', Black, b.left, b.id, b.key, b.right, y, hi);
    LinkedNode(h', Black, l, p, kp, a, lo, y);
    LinkedNode(h', c, Node(Black, l, p, kp, a), y, ky, Blacken(b), lo, hi);
  }

  method Rem6LeftHeap(mem: Memory, p: Ptr, ghost c: Color, ghost l: Tree, ghost kp: int, ghost s: Tree, ghost lo: Ptr, ghost hi: Ptr)
    returns (q: Ptr)
    requires s.Node? && IsRedNode(s.right)
    requires UniqueIds(Node(c, l, p, kp, s)) && Linked(mem.nodes, Node(c, l, p, kp, s), lo, hi)
    modifies mem
    ensures q == s.id
    ensures Linked(mem.nodes, Rem6Left(c, l, p, kp, s), lo, hi)
    ensures SameOutside(old(mem.nodes), mem.nodes, IdSet(Node(c, l, p, kp, s)))
    ensures mem.freed == old(mem.freed)
  {
    ghost var h0: Heap := mem.nodes;
    NodeAt(h0, Node(c, l, p, kp, s), lo, hi);
    NodeAt(h0, s, p, hi);
    NodeAt(h0, s.right, s.id, hi);
    Rem6LeftIds(c, l, p, kp, s);
    q := Rem6LeftWrites(mem, p);
    Rem6LeftLinked(h0, mem.nodes, c, l, p, kp, s, lo, hi);
  }

  // ---------------------------------------------------------------
  // balance_black_left
  // ---------------------------------------------------------------

  /** Cases 3 to 6 at p, whose left subtree l is one black level short and
      whose sibling s is black. */
  method BalanceBlackLeftHeap(mem: Memory, p: Ptr, ghost c: Color, ghost l: Tree, ghost kp: int, ghost s: Tree, ghost lo: Ptr, ghost hi: Ptr)
    returns (short: bool, q: Ptr)
    requires s.Node?
    requires UniqueIds(Node(c, l, p, kp, s)) && Linked(mem.nodes, Node(c, l, p, kp, s), lo, hi)
    modifies mem
    ensures short == BalanceBlackLeft(c, l, p, kp, s).0
    ensures q == BalanceBlackLeft(c, l, p, kp, s).1.id
    ensures Linked(mem.nodes, BalanceBlackLeft(c, l, p, kp, s).1, lo, hi)
    ensures SameOutside(old(mem.nodes), mem.nodes, IdSet(Node(c, l, p, kp, s)))
    ensures mem.freed == old(mem.freed)
  {
    ghost var h0: Heap := mem.nodes;
    ghost var t := Node(c, l, p, kp, s);
    NodeAt(h0, t, lo, hi);
    NodeAt(h0, s, p, hi);
    if s.left.Node? {
      NodeAt(h0, s.left, p, s.id);
    }
    if s.right.Node? {
      NodeAt(h0, s.right, s.id, hi);
    }
    var sn := mem.nodes[p].right;
    ghost var s2 := s;
    if IsRightThrd(mem.nodes[sn].status) || IsBlack(mem.nodes[mem.nodes[sn].right].status) {
      if IsLeftThrd(mem.nodes[sn].status) || IsBlack(mem.nodes[mem.nodes[sn].left].status) {
        short := Case34Writes(mem, p, sn);
        Case34LeftLinked(h0, mem.nodes, c, l, p, kp, s, lo, hi);
        return short, p;
      }
      Rem5LeftHeap(mem, p, c, l, kp, s, lo, hi);
      s2 := Rem5Left(s);
      Rem5LeftOrder(s);
      RegroupIds(s, s2);
    }
    ghost var h1: Heap := mem.nodes;
    q := Rem6LeftHeap(mem, p, c, l, kp, s2, lo, hi);
    SameOutsideTrans(h0, h1, mem.nodes, IdSet(t), IdSet(Node(c, l, p, kp, s2)), IdSet(t));
    short := false;
  }

  /** REMOVAL case 2: the red sibling s turns black and rotates up over p,
      which turns red and takes over the left subtree of s (always a data
      link in a red-black tree). */
  ghost predicate Rem2LeftDone(h: Heap, h': Heap, p: Ptr, s: Ptr) {
    && p in h && s in h && p != s
    && h'.Keys == h.Keys
    && (forall z | z in h && z != p && z != s :: h'[z] == h[z])
    && h'[p] == h[p].(right := h[s].left, status := WithRed(h[p].status))
    && h'[s] == h[s].(left := p, status := WithBlack(h[s].status))
  }

  method Rem2LeftWrites(mem: Memory, p: Ptr) returns (q: Ptr)
    requires p in mem.nodes && mem.nodes[p].right in mem.nodes && p != mem.nodes[p].right
    modifies mem
    ensures q == old(mem.nodes[p].right)
    ensures Rem2LeftDone(old(mem.nodes), mem.nodes, p, q)
    ensures mem.freed == old(mem.freed)
  {
    var h: Heap := mem.nodes;
    var s := h[p].right;
    h := h[p := h[p].(status := WithRed(h[p].status))];
    h := h[s := h[s].(status := WithBlack(h[s].status))];
    h := h[p := h[p].(right := h[s].left)];
    h := h[s := h[s].(left := p)];
    q := s;
    mem.nodes := h;
  }

  lemma Rem2LeftLinked(h: Heap, h': Heap, c: Color, l: Tree, p: Ptr, kp: int, s: Tree, lo: Ptr, hi: Ptr)
    requires s.Node? && s.left.Node? && UniqueIds(Node(c, l, p, kp, s)) && Linked(h, Node(c, l, p, kp, s), lo, hi)
    requires Rem2LeftDone(h, h', p, s.id)
    ensures Linked(h', Node(Black, Node(Red, l, p, kp, s.left), s.id, s.key, s.right), lo, hi)
    ensures SameOutside(h, h', {p, s.id})
  {
    NodeAt(h, Node(c, l, p, kp, s), lo, hi);
    NodeAt(h, s, p, hi);
    var w := {p, s.id};
    assert SameOutside(h, h', w);
    LinkedOutside(h, h', w, l, lo, p);
    LinkedOutside(h, h', w, s.left, p, s.id);
    LinkedOutside(h, h', w, s.right, s.id, hi);
    LinkedNode(h', Red, l, p, kp, s.left, lo, s.id);
    LinkedNode(h', Black, Node(Red, l, p, kp, s.left), s.id, s.key, s.right, lo, hi);
  }

  /** Case 2 followed by cases 3 to 6 at p, below the old sibling. */
  method Case2LeftHeap(mem: Memory, p: Ptr, ghost c: Color, ghost l: Tree, ghost kp: int, ghost s: Tree, ghost lo: Ptr, ghost hi: Ptr)
    returns (short: bool, q: Ptr)
    requires s.Node? && s.left.Node?
    requires UniqueIds(Node(c, l, p, kp, s)) && Linked(mem.nodes, Node(c, l, p, kp, s), lo, hi)
    modifies mem
    ensures short == BalanceBlackLeft(Red, l, p, kp, s.left).0
    ensures q == s.id
    ensures Linked(mem.nodes, Node(Black, BalanceBlackLeft(Red, l, p, kp, s.left).1, s.id, s.key, s.right), lo, hi)
    ensures SameOutside(old(mem.nodes), mem.nodes, IdSet(Node(c, l, p, kp, s)))
    ensures mem.freed == old(mem.freed)
  {
    ghost var h0: Heap := mem.nodes;
    ghost var t := Node(c, l, p, kp, s);
    NodeAt(h0, t, lo, hi);
    var top := Rem2LeftWrites(mem, p);
    ghost var h1: Heap := mem.nodes;
    Rem2LeftLinked(h0, h1, c, l, p, kp, s, lo, hi);
    ghost var inner := Node(Red, l, p, kp, s.left);
    ghost var t2 := Node(Black, inner, s.id, s.key, s.right);
    RotSame(t, t2);
    RegroupIds(t, t2);
    LinkedIds(h1, t2, lo, hi);
    var q1;
    short, q1 := BalanceBlackLeftHeap(mem, p, Red, l, kp, s.left, lo, s.id);
    ghost var h2: Heap := mem.nodes;
    ghost var b := BalanceBlackLeft(Red, l, p, kp, s.left);
    BalanceBlackLeftOrder(inner);
    RegroupIds(inner, b.1);
    mem.nodes := mem.nodes[top := mem.nodes[top].(left := q1)];
    AttachLeft(h1, h2, mem.nodes, Black, inner, b.1, s.id, s.key, s.right, lo, hi, NULL);
    SameOutsideTrans(h0, h1, mem.nodes, {p, s.id}, IdSet(t2) + {NULL}, IdSet(t) + {NULL});
    q := top;
  }

  /** balance_black_left at p, whose left subtree l is one black level
      short: case 2 for a red sibling, then cases 3 to 6 at p (the slot
      that holds p is then the left slot of the old sibling). */
  method BalanceLeftHeap(mem: Memory, p: Ptr, ghost c: Color, ghost l: Tree, ghost kp: int, ghost s: Tree, ghost lo: Ptr, ghost hi: Ptr)
    returns (short: bool, q: Ptr)
    requires SiblingLeft(s)
    requires UniqueIds(Node(c, l, p, kp, s)) && Linked(mem.nodes, Node(c, l, p, kp, s), lo, hi)
    modifies mem
    ensures short == BalanceLeft(c, l, p, kp, s).0
    ensures q == BalanceLeft(c, l, p, kp, s).1.id
    ensures Linked(mem.nodes, BalanceLeft(c, l, p, kp, s).1, lo, hi)
    ensures SameOutside(old(mem.nodes), mem.nodes, IdSet(Node(c, l, p, kp, s)))
    ensures mem.freed == old(mem.freed)
  {
    NodeAt(mem.nodes, Node(c, l, p, kp, s), lo, hi);
    NodeAt(mem.nodes, s, p, hi);
    var sn := mem.nodes[p].right;
    if IsRed(mem.nodes[sn].status) {
      short, q := Case2LeftHeap(mem, p, c, l, kp, s, lo, hi);
    } else {
      short, q := BalanceBlackLeftHeap(mem, p, c, l, kp, s, lo, hi);
    }
  }

  // ---------------------------------------------------------------
  // balance_black_right: the mirror image, at p whose right subtree r
  // is one black level short and whose sibling s is its left child
  // ---------------------------------------------------------------

  lemma Case34RightLinked(h: Heap, h': Heap, c: Color, s: Tree, p: Ptr, kp: int, r: Tree, lo: Ptr, hi: Ptr)
    requires s.Node? && UniqueIds(Node(c, s, p, kp, r)) && Linked(h, Node(c, s, p, kp, r), lo, hi)
    requires Case34Done(h, h', p, s.id)
    ensures Linked(h', Node(Black, Redden(s), p, kp, r), lo, hi)
    ensures SameOutside(h, h', {p, s.id})
  {
    NodeAt(h, Node(c, s, p, kp, r), lo, hi);
    NodeAt(h, s, lo, p);
    var w := {p, s.id};
    assert SameOutside(h, h', w);
    LinkedOutside(h, h', w, r, p, hi);
    LinkedOutside(h, h', w, s.left, lo, s.id);
    LinkedOutside(h, h', w, s.right, s.id, p);
    LinkedNode(h', Red, s.left, s.id, s.key, s.right, lo, p);
    LinkedNode(h', Black, Redden(s), p, kp, r, lo, hi);
  }

  /** Case 5 on the right: rotate left at s, whose red right child goes up
      black, then repoint p's left slot at that child. */
  method Rem5RightHeap(mem: Memory, p: Ptr, ghost c: Color, ghost s: Tree, ghost kp: int, ghost r: Tree, ghost lo: Ptr, ghost hi: Ptr)
    requires s.Node? && IsRedNode(s.right)
    requires UniqueIds(Node(c, s, p, kp, r)) && Linked(mem.nodes, Node(c, s, p, kp, r), lo, hi)
    modifies mem
    ensures Linked(mem.nodes, Node(c, Rem5Right(s), p, kp, r), lo, hi)
    ensures SameOutside(old(mem.nodes), mem.nodes, IdSet(Node(c, s, p, kp, r)))
    ensures mem.freed == old(mem.freed)
  {
    ghost var h0: Heap := mem.nodes;
    ghost var t := Node(c, s, p, kp, r);
    NodeAt(h0, t, lo, hi);
    NodeAt(h0, s, lo, p);
    NodeAt(h0, s.right, s.id, p);
    LinkedIds(h0, t, lo, hi);
    var sn := mem.nodes[p].left;
    var q := Case5RightWrites(mem, sn);
    ghost var h1: Heap := mem.nodes;
    Case5RightLinked(h0, h1, s.color, s.left, s.id, s.key, s.right, lo, p);
    assert Case5Right(s.left, s.id, s.key, s.right) == Rem5Right(s);
    Rem5RightOrder(s);
    RegroupIds(s, Rem5Right(s));
    mem.nodes := mem.nodes[p := mem.nodes[p].(left := q)];
    AttachLeft(h0, h1, mem.nodes, c, s, Rem5Right(s), p, kp, r, lo, hi, NULL);
  }

  ghost predicate Rem6RightDone(h: Heap, h': Heap, p: Ptr, s: Ptr, n: Ptr) {
    && p in h && s in h && n in h && p != s && p != n && s != n
    && h'.Keys == h.Keys
    && (forall z | z in h && z != p && z != s && z != n :: h'[z] == h[z])
    && h'[n] == h[n].(status := WithBlack(h[n].status))
    && h'[p] == h[p].(left := if IsRightData(h[s].status) then h[s].right else s,
                      status := StatusOf(false, IsRightData(h[s].status), IsRightData(h[p].status)))
    && h'[s] == h[s].(right := p, status := StatusOf(IsRed(h[p].status), IsLeftData(h[s].status), true))
  }

  method Rem6RightWrites(mem: Memory, p: Ptr) returns (q: Ptr)
    requires p in mem.nodes && mem.nodes[p].left in mem.nodes
    requires mem.nodes[mem.nodes[p].left].left in mem.nodes
    requires p != mem.nodes[p].left && p != mem.nodes[mem.nodes[p].left].left
    requires mem.nodes[p].left != mem.nodes[mem.nodes[p].left].left
    requires mem.nodes[p].status < 8 && mem.nodes[mem.nodes[p].left].status < 8
    requires IsLeftData(mem.nodes[p].status) && IsLeftData(mem.nodes[mem.nodes[p].left].status)
    modifies mem
    ensures q == old(mem.nodes[p].left)
    ensures Rem6RightDone(old(mem.nodes), mem.nodes, p, q, old(mem.nodes[mem.nodes[p].left].left))
    ensures mem.freed == old(mem.freed)
  {
    ghost var h0: Heap := mem.nodes;
    var red := IsRed(mem.nodes[p].status);
    var n := mem.nodes[mem.nodes[p].left].left;
    q := Case5LeftWrites(mem, p);
    ghost var h1: Heap := mem.nodes;
    Rem6Colours(mem, q, p, n, red, IsLeftData(h0[q].status), true, IsRightData(h0[q].status), IsRightData(h0[p].status));
    Rem6ComposeRight(h0, h1, mem.nodes, p, q, n);
  }

  lemma Rem6ComposeRight(h0: Heap, h1: Heap, h2: Heap, p: Ptr, q: Ptr, n: Ptr)
    requires Case5LeftDone(h0, h1, p, q) && n in h0 && n != p && n != q
    requires h2 == h1[q := h1[q].(status := StatusOf(IsRed(h0[p].status), IsLeftData(h0[q].status), true))]
                     [p := h1[p].(status := StatusOf(false, IsRightData(h0[q].status), IsRightData(h0[p].status)))]
                     [n := h1[n].(status := WithBlack(h1[n].status))]
    ensures Rem6RightDone(h0, h2, p, q, n)
  {
    Rem6ComposeRightP(h0, h1, h2, p, q, n);
    Rem6ComposeRightQ(h0, h1, h2, p, q, n);
    Rem6Frame(h0, h1, h2, p, q, n, h2[q].status, h2[p].status);
  }

  lemma Rem6ComposeRightP(h0: Heap, h1: Heap, h2: Heap, p: Ptr, q: Ptr, n: Ptr)
    requires Case5LeftDone(h0, h1, p, q) && n in h0 && n != p && n != q
    requires h2 == h1[q := h1[q].(status := StatusOf(IsRed(h0[p].status), IsLeftData(h0[q].status), true))]
                     [p := h1[p].(status := StatusOf(false, IsRightData(h0[q].status), IsRightData(h0[p].status)))]
                     [n := h1[n].(status := WithBlack(h1[n].status))]
    ensures h2[p] == h0[p].(left := if IsRightData(h0[q].status) then h0[q].right else q,
                            status := StatusOf(false, IsRightData(h0[q].status), IsRightData(h0[p].status)))
  {
  }

  lemma Rem6ComposeRightQ(h0: Heap, h1: Heap, h2: Heap, p: Ptr, q: Ptr, n: Ptr)
    requires Case5LeftDone(h0, h1, p, q) && n in h0 && n != p && n != q
    requires h2 == h1[q := h1[q].(status := StatusOf(IsRed(h0[p].status), IsLeftData(h0[q].status), true))]
                     [p := h1[p].(status := StatusOf(false, IsRightData(h0[q].status), IsRightData(h0[p].status)))]
                     [n := h1[n].(status := WithBlack(h1[n].status))]
    ensures h2[q] == h0[q].(right := p, status := StatusOf(IsRed(h0[p].status), IsLeftData(h0[q].status), true))
  {
  }

  lemma Rem6RightIds(c: Color, s: Tree, p: Ptr, kp: int, r: Tree)
    requires s.Node? && s.left.Node? && UniqueIds(Node(c, s, p, kp, r))
    ensures p != s.id && p != s.left.id && s.id != s.left.id
    ensures IdSet(r) !! {p, s.id, s.left.id} && IdSet(s.right) !! {p, s.id, s.left.id}
    ensures IdSet(s.left.left) !! {p, s.id, s.left.id} && IdSet(s.left.right) !! {p, s.id, s.left.id}
  {
    assert UniqueIds(s) && UniqueIds(s.left);
  }

  lemma Rem6RightLinked(h: Heap, h': Heap, c: Color, s: Tree, p: Ptr, kp: int, r: Tree, lo: Ptr, hi: Ptr)
    requires s.Node? && s.left.Node? && UniqueIds(Node(c, s, p, kp, r)) && Linked(h, Node(c, s, p, kp, r), lo, hi)
    requires Rem6RightDone(h, h', p, s.id, s.left.id)
    ensures Linked(h', Rem6Right(c, s, p, kp, r), lo, hi)
    ensures SameOutside(h, h', {p, s.id, s.left.id})
  {
    var Node(_, a, y, ky, b) := s;
    NodeAt(h, Node(c, s, p, kp, r), lo, hi);
    NodeAt(h, s, lo, p);
    NodeAt(h, a, lo, y);
    var w := {p, y, a.id};
    Rem6RightIds(c, s, p, kp, r);
    assert SameOutside(h, h', w);
    LinkedOutside(h, h', w, r, p, hi);
    LinkedOutside(h, h', w, b, y, p);
    LinkedOutside(h, h', w, a.left, lo, a.id);
    LinkedOutside(h, h', w, a.right, a.id, y);
    LinkedNode(h', Black, a.left, a.id, a.key, a.right, lo, y);
    LinkedNode(h', Black, b, p, kp, r, y, hi);
    LinkedNode(h', c, Blacken(a), y, ky, Node(Black, b, p, kp, r), lo, hi);
  }

  method Rem6RightHeap(mem: Memory, p: Ptr, ghost c: Color, ghost s: Tree, ghost kp: int, ghost r: Tree, ghost lo: Ptr, ghost hi: Ptr)
    returns (q: Ptr)
    requires s.Node? && IsRedNode(s.left)
    requires UniqueIds(Node(c, s, p, kp, r)) && Linked(mem.nodes, Node(c, s, p, kp, r), lo, hi)
    modifies mem
    ensures q == s.id
    ensures Linked(mem.nodes, Rem6Right(c, s, p, kp, r), lo, hi)
    ensures SameOutside(old(mem.nodes), mem.nodes, IdSet(Node(c, s, p, kp, r)))
    ensures mem.freed == old(mem.freed)
  {
    ghost var h0: Heap := mem.nodes;
    NodeAt(h0, Node(c, s, p, kp, r), lo, hi);
    NodeAt(h0, s, lo, p);
    NodeAt(h0, s.left, lo, s.id);
    Rem6RightIds(c, s, p, kp, r);
    q := Rem6RightWrites(mem, p);
    Rem6RightLinked(h0, mem.nodes, c, s, p, kp, r, lo, hi);
  }

  /** Cases 3 to 6 at p, whose right subtree r is one black level short and
      whose sibling s is black. */
  method BalanceBlackRightHeap(mem: Memory, p: Ptr, ghost c: Color, ghost s: Tree, ghost kp: int, ghost r: Tree, ghost lo: Ptr, ghost hi: Ptr)
    returns (short: bool, q: Ptr)
    requires s.Node?
    requires UniqueIds(Node(c, s, p, kp, r)) && Linked(mem.nodes, Node(c, s, p, kp, r), lo, hi)
    modifies mem
    ensures short == BalanceBlackRight(c, s, p, kp, r).0
    ensures q == BalanceBlackRight(c, s, p, kp, r).1.id
    ensures Linked(mem.nodes, BalanceBlackRight(c, s, p, kp, r).1, lo, hi)
    ensures SameOutside(old(mem.nodes), mem.nodes, IdSet(Node(c, s, p, kp, r)))
    ensures mem.freed == old(mem.freed)
  {
    ghost var h0: Heap := mem.nodes;
    ghost var t := Node(c, s, p, kp, r);
    NodeAt(h0, t, lo, hi);
    NodeAt(h0, s, lo, p);
    if s.left.Node? {
      NodeAt(h0, s.left, lo, s.id);
    }
    if s.right.Node? {
      NodeAt(h0, s.right, s.id, p);
    }
    var sn := mem.nodes[p].left;
    ghost var s2 := s;
    if IsLeftThrd(mem.nodes[sn].status) || IsBlack(mem.nodes[mem.nodes[sn].left].status) {
      if IsRightThrd(mem.nodes[sn].status) || IsBlack(mem.nodes[mem.nodes[sn].right].status) {
        short := Case34Writes(mem, p, sn);
        Case34RightLinked(h0, mem.nodes, c, s, p, kp, r, lo, hi);
        return short, p;
      }
      Rem5RightHeap(mem, p, c, s, kp, r, lo, hi);
      s2 := Rem5Right(s);
      Rem5RightOrder(s);
      RegroupIds(s, s2);
    }
    ghost var h1: Heap := mem.nodes;
    q := Rem6RightHeap(mem, p, c, s2, kp, r, lo, hi);
    SameOutsideTrans(h0, h1, mem.nodes, IdSet(t), IdSet(Node(c, s2, p, kp, r)), IdSet(t));
    short := false;
  }

  ghost predicate Rem2RightDone(h: Heap, h': Heap, p: Ptr, s: Ptr) {
    && p in h && s in h && p != s
    && h'.Keys == h.Keys
    && (forall z | z in h && z != p && z != s :: h'[z] == h[z])
    && h'[p] == h[p].(left := h[s].right, status := WithRed(h[p].status))
    && h'[s] == h[s].(right := p, status := WithBlack(h[s].status))
  }

  method Rem2RightWrites(mem: Memory, p: Ptr) returns (q: Ptr)
    requires p in mem.nodes && mem.nodes[p].left in mem.nodes && p != mem.nodes[p].left
    modifies mem
    ensures q == old(mem.nodes[p].left)
    ensures Rem2RightDone(old(mem.nodes), mem.nodes, p, q)
    ensures mem.freed == old(mem.freed)
  {
    var h: Heap := mem.nodes;
    var s := h[p].left;
    h := h[p := h[p].(status := WithRed(h[p].status))];
    h := h[s := h[s].(status := WithBlack(h[s].status))];
    h := h[p := h[p].(left := h[s].right)];
    h := h[s := h[s].(right := p)];
    q := s;
    mem.nodes := h;
  }

  lemma Rem2RightLinked(h: Heap, h': Heap, c: Color, s: Tree, p: Ptr, kp: int, r: Tree, lo: Ptr, hi: Ptr)
    requires s.Node? && s.right.Node? && UniqueIds(Node(c, s, p, kp, r)) && Linked(h, Node(c, s, p, kp, r), lo, hi)
    requires Rem2RightDone(h, h', p, s.id)
    ensures Linked(h', Node(Black, s.left, s.id, s.key, Node(Red, s.right, p, kp, r)), lo, hi)
    ensures SameOutside(h, h', {p, s.id})
  {
    NodeAt(h, Node(c, s, p, kp, r), lo, hi);
    NodeAt(h, s, lo, p);
    var w := {p, s.id};
    assert SameOutside(h, h', w);
    LinkedOutside(h, h', w, r, p, hi);
    LinkedOutside(h, h', w, s.right, s.id, p);
    LinkedOutside(h, h', w, s.left, lo, s.id);
    LinkedNode(h', Red, s.right, p, kp, r, s.id, hi);
    LinkedNode(h', Black, s.left, s.id, s.key, Node(Red, s.right, p, kp, r), lo, hi);
  }

  method Case2RightHeap(mem: Memory, p: Ptr, ghost c: Color, ghost s: Tree, ghost kp: int, ghost r: Tree, ghost lo: Ptr, ghost hi: Ptr)
    returns (short: bool, q: Ptr)
    requires s.Node? && s.right.Node?
    requires UniqueIds(Node(c, s, p, kp, r)) && Linked(mem.nodes, Node(c, s, p, kp, r), lo, hi)
    modifies mem
    ensures short == BalanceBlackRight(Red, s.right, p, kp, r).0
    ensures q == s.id
    ensures Linked(mem.nodes, Node(Black, s.left, s.id, s.key, BalanceBlackRight(Red, s.right, p, kp, r).1), lo, hi)
    ensures SameOutside(old(mem.nodes), mem.nodes, IdSet(Node(c, s, p, kp, r)))
    ensures mem.freed == old(mem.freed)
  {
    ghost var h0: Heap := mem.nodes;
    ghost var t := Node(c, s, p, kp, r);
    NodeAt(h0, t, lo, hi);
    var top := Rem2RightWrites(mem, p);
    ghost var h1: Heap := mem.nodes;
    Rem2RightLinked(h0, h1, c, s, p, kp, r, lo, hi);
    ghost var inner := Node(Red, s.right, p, kp, r);
    ghost var t2 := Node(Black, s.left, s.id, s.key, inner);
    RotSameRight(t, t2);
    RegroupIds(t, t2);
    LinkedIds(h1, t2, lo, hi);
    var q1;
    short, q1 := BalanceBlackRightHeap(mem, p, Red, s.right, kp, r, s.id, hi);
    ghost var h2: Heap := mem.nodes;
    ghost var b := BalanceBlackRight(Red, s.right, p, kp, r);
    BalanceBlackRightOrder(inner);
    RegroupIds(inner, b.1);
    mem.nodes := mem.nodes[top := mem.nodes[top].(right := q1)];
    AttachRight(h1, h2, mem.nodes, Black, s.left, b.1, s.id, s.key, inner, lo, hi, NULL);
    SameOutsideTrans(h0, h1, mem.nodes, {p, s.id}, IdSet(t2) + {NULL}, IdSet(t) + {NULL});
    q := top;
  }

  /** balance_black_right at p, whose right subtree r is one black level
      short. */
  method BalanceRightHeap(mem: Memory, p: Ptr, ghost c: Color, ghost s: Tree, ghost kp: int, ghost r: Tree, ghost lo: Ptr, ghost hi: Ptr)
    returns (short: bool, q: Ptr)
    requires SiblingRight(s)
    requires UniqueIds(Node(c, s, p, kp, r)) && Linked(mem.nodes, Node(c, s, p, kp, r), lo, hi)
    modifies mem
    ensures short == BalanceRight(c, s, p, kp, r).0
    ensures q == BalanceRight(c, s, p, kp, r).1.id
    ensures Linked(mem.nodes, BalanceRight(c, s, p, kp, r).1, lo, hi)
    ensures SameOutside(old(mem.nodes), mem.nodes, IdSet(Node(c, s, p, kp, r)))
    ensures mem.freed == old(mem.freed)
  {
    NodeAt(mem.nodes, Node(c, s, p, kp, r), lo, hi);
    NodeAt(mem.nodes, s, lo, p);
    var sn := mem.nodes[p].left;
    if IsRed(mem.nodes[sn].status) {
      short, q := Case2RightHeap(mem, p, c, s, kp, r, lo, hi);
    } else {
      short, q := BalanceBlackRightHeap(mem, p, c, s, kp, r, lo, hi);
    }
  }

  // ---------------------------------------------------------------
  // prev_node
  // ---------------------------------------------------------------

  /** The in-order predecessor of n: the target of its left thread, or
      else the last record of its left subtree l, found by following right
      data links from the root of l. */
  method PrevNode(h: Heap, n: Ptr, ghost l: Tree, ghost lo: Ptr, ghost hi: Ptr) returns (m: Ptr)
    requires n != NULL ==> n in h
    requires n != NULL && IsLeftData(h[n].status) ==> l.Node? && h[n].left == l.id && Linked(h, l, lo, hi)
    ensures n == NULL ==> m == NULL
    ensures n != NULL && IsLeftThrd(h[n].status) ==> m == h[n].left
    ensures n != NULL && IsLeftData(h[n].status) ==> m == RightmostId(l) && m == InOrder(l)[|InOrder(l)| - 1]
  {
    if n == NULL {
      return NULL;
    }
    if IsLeftThrd(h[n].status) {
      return h[n].left;
    }
    m := h[n].left;
    ghost var u, ulo := l, lo;
    while IsRightData(h[m].status)
      invariant u.Node? && m == u.id && Linked(h, u, ulo, hi)
      invariant RightmostId(u) == RightmostId(l)
      decreases u
    {
      m := h[m].right;
      u, ulo := u.right, u.id;
    }
  }

  // ---------------------------------------------------------------
  // What find_unlink_fix promises on the records
  // ---------------------------------------------------------------

  /** find_unlink_fix on the linked subtree t, which was h0 and is now h,
      answered (action, q, removed): it did what Fuf says.  A leaf that was
      found is only reported (its parent turns the slot into a thread), and
      otherwise the records spell out the new subtree, whose root q is
      stored in the slot that held t. */
  ghost predicate FufPost(h0: Heap, h: Heap, t: Tree, mode: DelMode, k: int, lo: Ptr, hi: Ptr, action: DelAction, q: Ptr, removed: Ptr)
    requires t.Node?
  {
    DelPost(h0, h, IdSet(t), mode, Fuf(t, mode, k), lo, hi, action, q, removed)
  }

  /** The same, for the answer d of find_unlink_fix on a subtree with
      records ids. */
  ghost predicate DelPost(h0: Heap, h: Heap, ids: set<Ptr>, mode: DelMode, d: DelRes, lo: Ptr, hi: Ptr, action: DelAction, q: Ptr, removed: Ptr) {
    && action == d.action && q == RootPtr(d.tree) && removed == d.removed
    && (Found(action) ==> removed in h && h[removed].key == d.removedKey)
    && (!Found(action) || NoKid(action) ==> h == h0)
    && (Found(action) && !NoKid(action) ==> Linked(h, d.tree, NewLo(mode, d, lo), NewHi(mode, d, hi)))
    && SameOutside(h0, h, ids)
  }

  /** The answer of a balance call b that rebuilt the subtree in place. */
  lemma BalanceDelPost(h0: Heap, h1: Heap, h: Heap, ids: set<Ptr>, sub: set<Ptr>, b: (bool, Tree), short: bool, q: Ptr,
                       rem: Ptr, rk: int, lo: Ptr, hi: Ptr)
    requires b.1.Node? && short == b.0 && q == b.1.id && Linked(h, b.1, lo, hi)
    requires SameOutside(h0, h1, ids) && SameOutside(h1, h, sub) && sub <= ids
    requires rem in h1 && h1[rem].key == rk
    ensures DelPost(h0, h, ids, Search, FromBalance(b, rem, rk), lo, hi, if short then MisOneBlack else Completed, q, rem)
  {
    SameOutsideTrans(h0, h1, h, ids, sub, ids);
  }

  lemma BalanceLeftNode(c: Color, l: Tree, p: Ptr, kp: int, s: Tree)
    ensures BalanceLeft(c, l, p, kp, s).1.Node?
  {
  }

  lemma BalanceRightNode(c: Color, s: Tree, p: Ptr, kp: int, r: Tree)
    ensures BalanceRight(c, s, p, kp, r).1.Node?
  {
  }

  /** What DelIds and NoKidSelf say about the answer d on subtree t. */
  ghost predicate RemovedFrom(t: Tree, d: DelRes)
    requires t.Node?
  {
    && (Found(d.action) ==>
          && d.removed in IdSet(t) && UniqueIds(Remaining(d))
          && IdSet(Remaining(d)) == IdSet(t) - {d.removed})
    && (NoKid(d.action) ==> d.removed == t.id && d.removedKey == t.key)
  }

  lemma FufRemovedFrom(t: Tree, mode: DelMode, k: int)
    requires t.Node? && UniqueIds(t)
    ensures RemovedFrom(t, Fuf(t, mode, k))
  {
    DelIds(t, mode, k);
    NoKidSelf(t, mode, k);
  }

  /** A leaf reported by find_unlink_fix is the subtree's own root. */
  lemma NoKidSelf(t: Tree, mode: DelMode, k: int)
    requires t.Node?
    ensures NoKid(Fuf(t, mode, k).action) ==>
      Fuf(t, mode, k).removed == t.id && Fuf(t, mode, k).removedKey == t.key && t.left.Nil? && t.right.Nil?
  {
    var rc := StepCmp(t, mode, k);
    if rc == 0 {
      assert Fuf(t, mode, k) == Unlink(t, mode, k);
    }
  }

  /** A red node of a red-black tree has either two children or none. */
  lemma RedKids(t: Tree)
    requires t.Node? && RB(t) && t.color == Red
    ensures t.left.Nil? <==> t.right.Nil?
  {
    RBKids(t);
  }

  // ---------------------------------------------------------------
  // unlink_from_tree: a black node with one (red, childless) child
  // ---------------------------------------------------------------

  /** Case 2: the left child replaces p and turns black; with thread
      adjustment on, its right thread takes over p's. */
  method OnlyLeftWrites(mem: Memory, p: Ptr, adjust: bool) returns (q: Ptr)
    requires p in mem.nodes && mem.nodes[p].left in mem.nodes
    modifies mem
    ensures q == old(mem.nodes[p].left)
    ensures mem.nodes == old(mem.nodes)[q := old(mem.nodes[q]).(right := if adjust then old(mem.nodes[p].right) else old(mem.nodes[q].right),
                                                                 status := WithBlack(old(mem.nodes[q].status)))]
    ensures mem.freed == old(mem.freed)
  {
    var h: Heap := mem.nodes;
    q := h[p].left;
    h := h[q := h[q].(status := WithBlack(h[q].status))];
    if adjust {
      h := h[q := h[q].(right := h[p].right)];
    }
    mem.nodes := h;
  }

  /** Case 4, the mirror image. */
  method OnlyRightWrites(mem: Memory, p: Ptr, adjust: bool) returns (q: Ptr)
    requires p in mem.nodes && mem.nodes[p].right in mem.nodes
    modifies mem
    ensures q == old(mem.nodes[p].right)
    ensures mem.nodes == old(mem.nodes)[q := old(mem.nodes[q]).(left := if adjust then old(mem.nodes[p].left) else old(mem.nodes[q].left),
                                                                status := WithBlack(old(mem.nodes[q].status)))]
    ensures mem.freed == old(mem.freed)
  {
    var h: Heap := mem.nodes;
    q := h[p].right;
    h := h[q := h[q].(status := WithBlack(h[q].status))];
    if adjust {
      h := h[q := h[q].(left := h[p].left)];
    }
    mem.nodes := h;
  }

  lemma OnlyLeftLinked(h: Heap, h': Heap, t: Tree, lo: Ptr, hi: Ptr, adjust: bool)
    requires t.Node? && t.left.Node? && t.left.left.Nil? && t.left.right.Nil? && t.right.Nil?
    requires UniqueIds(t) && Linked(h, t, lo, hi) && t.id in h && t.left.id in h
    requires h' == h[t.left.id := h[t.left.id].(right := if adjust then h[t.id].right else h[t.left.id].right,
                                                status := WithBlack(h[t.left.id].status))]
    ensures Linked(h', Blacken(t.left), lo, if adjust then hi else t.id)
    ensures SameOutside(h, h', {t.left.id})
  {
    NodeAt(h, t, lo, hi);
    NodeAt(h, t.left, lo, t.id);
  }

  lemma OnlyRightLinked(h: Heap, h': Heap, t: Tree, lo: Ptr, hi: Ptr, adjust: bool)
    requires t.Node? && t.right.Node? && t.right.left.Nil? && t.right.right.Nil? && t.left.Nil?
    requires UniqueIds(t) && Linked(h, t, lo, hi) && t.id in h && t.right.id in h
    requires h' == h[t.right.id := h[t.right.id].(left := if adjust then h[t.id].left else h[t.right.id].left,
                                                  status := WithBlack(h[t.right.id].status))]
    ensures Linked(h', Blacken(t.right), if adjust then lo else t.id, hi)
    ensures SameOutside(h, h', {t.right.id})
  {
    NodeAt(h, t, lo, hi);
    NodeAt(h, t.right, t.id, hi);
  }

  // ---------------------------------------------------------------
  // unlink_from_tree: a node with two children
  // ---------------------------------------------------------------

  /** The successor a was a childless right child of x: a takes over x's
      left link and status with a right thread (still to x's upper
      neighbour), and the last record m of the left subtree now threads
      to a. */
  ghost predicate SuccLeafDone(h0: Heap, h: Heap, x: Ptr, a: Ptr, m: Ptr) {
    && x in h0 && a in h0 && m in h0 && a != m
    && h.Keys == h0.Keys
    && (forall z | z in h0 && z != a && z != m :: h[z] == h0[z])
    && h[a] == h0[a].(left := h0[x].left, status := WithRightThrd(h0[x].status))
    && h[m] == h0[m].(right := a)
  }

  method SuccLeafWrites(mem: Memory, x: Ptr, ghost l: Tree, ghost lo: Ptr) returns (a: Ptr)
    requires x in mem.nodes && mem.nodes[x].right in mem.nodes && mem.nodes[x].right != x && mem.nodes[x].right != NULL
    requires l.Node? && mem.nodes[x].left == l.id && IsLeftData(mem.nodes[x].status)
    requires Linked(mem.nodes, l, lo, x) && mem.nodes[x].right !in IdSet(l)
    modifies mem
    ensures a == old(mem.nodes[x].right)
    ensures SuccLeafDone(old(mem.nodes), mem.nodes, x, a, RightmostId(l))
    ensures mem.freed == old(mem.freed)
  {
    var h: Heap := mem.nodes;
    ghost var h0 := h;
    a := h[x].right;
    h := h[a := h[a].(left := h[x].left, status := WithRightThrd(h[x].status))];
    assert SameOutside(h0, h, {a});
    LinkedOutside(h0, h, {a}, l, lo, x);
    var m := PrevNode(h, a, l, lo, x);
    LinkedIds(h0, l, lo, x);
    h := h[m := h[m].(right := a)];
    mem.nodes := h;
  }

  lemma SuccLeafLinked(h0: Heap, h: Heap, t: Tree, lo: Ptr, hi: Ptr)
    requires t.Node? && t.left.Node? && t.right.Node? && t.right.left.Nil? && t.right.right.Nil?
    requires UniqueIds(t) && Linked(h0, t, lo, hi)
    requires SuccLeafDone(h0, h, t.id, t.right.id, RightmostId(t.left))
    ensures Linked(h, Node(t.color, t.left, t.right.id, t.right.key, Nil), lo, hi)
    ensures SameOutside(h0, h, IdSet(t))
  {
    var Node(c, l, x, kx, r) := t;
    NodeAt(h0, t, lo, hi);
    NodeAt(h0, r, x, hi);
    LinkedIds(h0, t, lo, hi);
    assert h0[x].status == StatusOf(c == Red, true, true);
    ReboundHi(h0, h, l, lo, x, r.id);
    LinkedNode(h, c, l, r.id, r.key, Nil, lo, hi);
  }

  /** The successor a was taken out of the right subtree, which now has
      root qr: x's right slot holds qr, a takes over x's links and status,
      and the last record m of the left subtree now threads to a. */
  ghost predicate SuccMoveDone(h1: Heap, h: Heap, x: Ptr, a: Ptr, m: Ptr, qr: Ptr) {
    && x in h1 && a in h1 && m in h1 && a != m && a != x && m != x
    && h.Keys == h1.Keys
    && (forall z | z in h1 && z != a && z != m && z != x :: h[z] == h1[z])
    && h[x] == h1[x].(right := qr)
    && h[a] == h1[a].(left := h1[x].left, right := qr, status := h1[x].status)
    && h[m] == h1[m].(right := a)
  }

  method SuccMoveWrites(mem: Memory, x: Ptr, qr: Ptr, a: Ptr, ghost l: Tree, ghost lo: Ptr) returns (m: Ptr)
    requires x in mem.nodes && a in mem.nodes && a != x && a != NULL
    requires l.Node? && mem.nodes[x].left == l.id && IsLeftData(mem.nodes[x].status)
    requires Linked(mem.nodes, l, lo, x) && a !in IdSet(l) && x !in IdSet(l)
    modifies mem
    ensures m == RightmostId(l)
    ensures SuccMoveDone(old(mem.nodes), mem.nodes, x, a, m, qr)
    ensures mem.freed == old(mem.freed)
  {
    var h: Heap := mem.nodes;
    ghost var h0 := h;
    h := h[x := h[x].(right := qr)];
    h := h[a := h[a].(left := h[x].left, right := h[x].right, status := h[x].status)];
    assert SameOutside(h0, h, {a, x});
    LinkedOutside(h0, h, {a, x}, l, lo, x);
    m := PrevNode(h, a, l, lo, x);
    LinkedIds(h0, l, lo, x);
    h := h[m := h[m].(right := a)];
    mem.nodes := h;
  }

  lemma SuccMoveLinked(h0: Heap, h1: Heap, h: Heap, t: Tree, d: Tree, a: Ptr, qr: Ptr, lo: Ptr, hi: Ptr)
    requires t.Node? && t.left.Node? && t.right.Node? && UniqueIds(t) && Linked(h0, t, lo, hi)
    requires d.Node? && qr == d.id && Linked(h1, d, a, hi) && UniqueIds(d)
    requires a in IdSet(t.right) && IdSet(d) == IdSet(t.right) - {a}
    requires SameOutside(h0, h1, IdSet(t.right))
    requires SuccMoveDone(h1, h, t.id, a, RightmostId(t.left), qr)
    ensures Linked(h, Node(t.color, t.left, a, h1[a].key, d), lo, hi)
    ensures SameOutside(h0, h, IdSet(t))
  {
    var Node(c, l, x, kx, r) := t;
    NodeAt(h0, t, lo, hi);
    LinkedIds(h0, t, lo, hi);
    assert h1[x] == h0[x];
    assert h0[x].status == StatusOf(c == Red, true, true);
    LinkedOutside(h0, h1, IdSet(r), l, lo, x);
    ReboundHi(h1, h, l, lo, x, a);
    assert SameOutside(h1, h, {a, RightmostId(l), x});
    LinkedOutside(h1, h, {a, RightmostId(l), x}, d, a, hi);
    LinkedNode(h, c, l, a, h1[a].key, d, lo, hi);
  }

  // ---------------------------------------------------------------
  // find_unlink_fix: storing the answer of a recursive call
  // ---------------------------------------------------------------

  /** The left slot of p, a data link, now holds the root of the new left
      subtree d, which the recursive call linked between lo' and p. */
  lemma AttachLeftLo(h0: Heap, h1: Heap, h2: Heap, c: Color, l: Tree, d: Tree, p: Ptr, ky: int, r: Tree, lo: Ptr, lo': Ptr, hi: Ptr)
    requires UniqueIds(Node(c, l, p, ky, r)) && Linked(h0, Node(c, l, p, ky, r), lo, hi) && l.Node?
    requires d.Node? && Linked(h1, d, lo', p) && UniqueIds(d) && IdSet(d) <= IdSet(l)
    requires SameOutside(h0, h1, IdSet(l))
    requires p in h1 && h2 == h1[p := h1[p].(left := d.id)]
    ensures Linked(h2, Node(c, d, p, ky, r), lo', hi) && UniqueIds(Node(c, d, p, ky, r))
    ensures SameOutside(h0, h2, IdSet(Node(c, l, p, ky, r)))
  {
    NodeAt(h0, Node(c, l, p, ky, r), lo, hi);
    LinkedIds(h0, Node(c, l, p, ky, r), lo, hi);
    assert SameOutside(h1, h2, {p});
    LinkedOutside(h1, h2, {p}, d, lo', p);
    ChildLeftIds(c, l, p, ky, r, d, NULL);
    SameOutsideTrans(h0, h1, h2, IdSet(l), {p}, IdSet(l) + {p});
    LinkedOutside(h0, h2, IdSet(l) + {p}, r, p, hi);
    LinkedNode(h2, c, d, p, ky, r, lo', hi);
  }

  lemma AttachRightHi(h0: Heap, h1: Heap, h2: Heap, c: Color, l: Tree, d: Tree, p: Ptr, ky: int, r: Tree, lo: Ptr, hi: Ptr, hi': Ptr)
    requires UniqueIds(Node(c, l, p, ky, r)) && Linked(h0, Node(c, l, p, ky, r), lo, hi) && r.Node?
    requires d.Node? && Linked(h1, d, p, hi') && UniqueIds(d) && IdSet(d) <= IdSet(r)
    requires SameOutside(h0, h1, IdSet(r))
    requires p in h1 && h2 == h1[p := h1[p].(right := d.id)]
    ensures Linked(h2, Node(c, l, p, ky, d), lo, hi') && UniqueIds(Node(c, l, p, ky, d))
    ensures SameOutside(h0, h2, IdSet(Node(c, l, p, ky, r)))
  {
    NodeAt(h0, Node(c, l, p, ky, r), lo, hi);
    LinkedIds(h0, Node(c, l, p, ky, r), lo, hi);
    assert SameOutside(h1, h2, {p});
    LinkedOutside(h1, h2, {p}, d, p, hi');
    ChildRightIds(c, l, p, ky, r, d, NULL);
    SameOutsideTrans(h0, h1, h2, IdSet(r), {p}, IdSet(r) + {p});
    LinkedOutside(h0, h2, IdSet(r) + {p}, l, lo, p);
    LinkedNode(h2, c, l, p, ky, d, lo, hi');
  }

  /** The reported leaf below p is dropped: p's left slot becomes a thread
      (to the leaf's own left neighbour when threads are adjusted, and
      otherwise still to the leaf). */
  method LeftLeafWrites(mem: Memory, p: Ptr, adjust: bool)
    requires p in mem.nodes && mem.nodes[p].left in mem.nodes
    modifies mem
    ensures mem.nodes == old(mem.nodes)[p := old(mem.nodes[p]).(left := if adjust then old(mem.nodes[mem.nodes[p].left].left) else old(mem.nodes[p].left),
                                                                status := WithLeftThrd(old(mem.nodes[p].status)))]
    ensures mem.freed == old(mem.freed)
  {
    var h: Heap := mem.nodes;
    if adjust {
      h := h[p := h[p].(left := h[h[p].left].left)];
    }
    h := h[p := h[p].(status := WithLeftThrd(h[p].status))];
    mem.nodes := h;
  }

  method RightLeafWrites(mem: Memory, p: Ptr, adjust: bool)
    requires p in mem.nodes && mem.nodes[p].right in mem.nodes
    modifies mem
    ensures mem.nodes == old(mem.nodes)[p := old(mem.nodes[p]).(right := if adjust then old(mem.nodes[mem.nodes[p].right].right) else old(mem.nodes[p].right),
                                                                status := WithRightThrd(old(mem.nodes[p].status)))]
    ensures mem.freed == old(mem.freed)
  {
    var h: Heap := mem.nodes;
    if adjust {
      h := h[p := h[p].(right := h[h[p].right].right)];
    }
    h := h[p := h[p].(status := WithRightThrd(h[p].status))];
    mem.nodes := h;
  }

  lemma ThreadLeft(h0: Heap, h2: Heap, c: Color, l: Tree, p: Ptr, ky: int, r: Tree, lo: Ptr, lo': Ptr, hi: Ptr)
    requires l.Node? && UniqueIds(Node(c, l, p, ky, r)) && Linked(h0, Node(c, l, p, ky, r), lo, hi)
    requires p in h0 && h2 == h0[p := h0[p].(left := lo', status := WithLeftThrd(h0[p].status))]
    ensures Linked(h2, Node(c, Nil, p, ky, r), lo', hi) && SameOutside(h0, h2, {p})
  {
    NodeAt(h0, Node(c, l, p, ky, r), lo, hi);
    LinkedOutside(h0, h2, {p}, r, p, hi);
    LinkedNode(h2, c, Nil, p, ky, r, lo', hi);
  }

  lemma ThreadRight(h0: Heap, h2: Heap, c: Color, l: Tree, p: Ptr, ky: int, r: Tree, lo: Ptr, hi: Ptr, hi': Ptr)
    requires r.Node? && UniqueIds(Node(c, l, p, ky, r)) && Linked(h0, Node(c, l, p, ky, r), lo, hi)
    requires p in h0 && h2 == h0[p := h0[p].(right := hi', status := WithRightThrd(h0[p].status))]
    ensures Linked(h2, Node(c, l, p, ky, Nil), lo, hi') && SameOutside(h0, h2, {p})
  {
    NodeAt(h0, Node(c, l, p, ky, r), lo, hi);
    LinkedOutside(h0, h2, {p}, l, lo, p);
    LinkedNode(h2, c, l, p, ky, Nil, lo, hi');
  }

  /** A post-state stated with the bounds already moved is the post-state
      of the descent in any mode. */
  lemma DelPostRebase(h0: Heap, h: Heap, ids: set<Ptr>, mode: DelMode, e: DelRes, lo: Ptr, hi: Ptr,
                      action: DelAction, q: Ptr, removed: Ptr)
    requires DelPost(h0, h, ids, Search, e, NewLo(mode, e, lo), NewHi(mode, e, hi), action, q, removed)
    ensures DelPost(h0, h, ids, mode, e, lo, hi, action, q, removed)
  {
  }

  /** The left slot of t after the leaf below it was taken: a thread to the
      leaf's own lower neighbour (search mode) or to the leaf (walk mode). */
  lemma LeftLeafThread(h0: Heap, h: Heap, mode: DelMode, t: Tree, lo: Ptr, hi: Ptr, d: DelRes)
    requires t.Node? && t.left.Node? && UniqueIds(t) && Linked(h0, t, lo, hi) && mode != GoRight
    requires NoKid(d.action) && t.left.left.Nil? && t.left.right.Nil?
    requires d.removed == t.left.id && d.removedKey == t.left.key
    requires t.id in h0 && h0[t.id].left in h0
    requires h == h0[t.id := h0[t.id].(left := if mode == Search then h0[h0[t.id].left].left else h0[t.id].left,
                                       status := WithLeftThrd(h0[t.id].status))]
    ensures UniqueIds(Node(t.color, Nil, t.id, t.key, t.right))
    ensures Linked(h, Node(t.color, Nil, t.id, t.key, t.right), NewLo(mode, d, lo), hi)
    ensures SameOutside(h0, h, IdSet(t)) && IdSet(Node(t.color, Nil, t.id, t.key, t.right)) <= IdSet(t)
    ensures d.removed in h && h[d.removed].key == d.removedKey
    ensures d.action == RedNoKid ==> DelPost(h0, h, IdSet(t), mode, AfterLeft(t, d), lo, hi, Completed, t.id, d.removed)
  {
    var Node(c, l, p, ky, r) := t;
    NodeAt(h0, t, lo, hi);
    NodeAt(h0, l, lo, p);
    LinkedIds(h0, t, lo, hi);
    ThreadLeft(h0, h, c, l, p, ky, r, lo, NewLo(mode, d, lo), hi);
  }

  lemma RightLeafThread(h0: Heap, h: Heap, mode: DelMode, t: Tree, lo: Ptr, hi: Ptr, d: DelRes)
    requires t.Node? && t.right.Node? && UniqueIds(t) && Linked(h0, t, lo, hi) && mode != GoLeft
    requires NoKid(d.action) && t.right.left.Nil? && t.right.right.Nil?
    requires d.removed == t.right.id && d.removedKey == t.right.key
    requires t.id in h0 && h0[t.id].right in h0
    requires h == h0[t.id := h0[t.id].(right := if mode == Search then h0[h0[t.id].right].right else h0[t.id].right,
                                       status := WithRightThrd(h0[t.id].status))]
    ensures UniqueIds(Node(t.color, t.left, t.id, t.key, Nil))
    ensures Linked(h, Node(t.color, t.left, t.id, t.key, Nil), lo, NewHi(mode, d, hi))
    ensures SameOutside(h0, h, IdSet(t)) && IdSet(Node(t.color, t.left, t.id, t.key, Nil)) <= IdSet(t)
    ensures d.removed in h && h[d.removed].key == d.removedKey
    ensures d.action == RedNoKid ==> DelPost(h0, h, IdSet(t), mode, AfterRight(t, d), lo, hi, Completed, t.id, d.removed)
  {
    var Node(c, l, p, ky, r) := t;
    NodeAt(h0, t, lo, hi);
    NodeAt(h0, r, p, hi);
    LinkedIds(h0, t, lo, hi);
    ThreadRight(h0, h, c, l, p, ky, r, lo, hi, NewHi(mode, d, hi));
  }

  /** The left slot of t set to the new left subtree answered by the call. */
  lemma LeftTreeAttach(h0: Heap, h1: Heap, h2: Heap, mode: DelMode, t: Tree, lo: Ptr, hi: Ptr, d: DelRes, ql: Ptr, rem: Ptr)
    requires t.Node? && t.left.Node? && UniqueIds(t) && Linked(h0, t, lo, hi) && mode != GoRight
    requires (d.action == Completed || d.action == MisOneBlack) && d.tree.Node?
    requires DelPost(h0, h1, IdSet(t.left), mode, d, lo, t.id, d.action, ql, rem) && RemovedFrom(t.left, d)
    requires t.id in h1 && h2 == h1[t.id := h1[t.id].(left := ql)]
    ensures UniqueIds(Node(t.color, d.tree, t.id, t.key, t.right))
    ensures Linked(h2, Node(t.color, d.tree, t.id, t.key, t.right), NewLo(mode, d, lo), hi)
    ensures SameOutside(h0, h2, IdSet(t)) && IdSet(Node(t.color, d.tree, t.id, t.key, t.right)) <= IdSet(t)
    ensures rem in h2 && h2[rem].key == d.removedKey
    ensures d.action == Completed ==> DelPost(h0, h2, IdSet(t), mode, AfterLeft(t, d), lo, hi, Completed, t.id, rem)
  {
    var Node(c, l, p, ky, r) := t;
    NodeAt(h0, t, lo, hi);
    LinkedIds(h0, t, lo, hi);
    assert Remaining(d) == d.tree;
    AttachLeftLo(h0, h1, h2, c, l, d.tree, p, ky, r, lo, NewLo(mode, d, lo), hi);
    ChildLeftIds(c, l, p, ky, r, d.tree, NULL);
  }

  lemma RightTreeAttach(h0: Heap, h1: Heap, h2: Heap, mode: DelMode, t: Tree, lo: Ptr, hi: Ptr, d: DelRes, qr: Ptr, rem: Ptr)
    requires t.Node? && t.right.Node? && UniqueIds(t) && Linked(h0, t, lo, hi) && mode != GoLeft
    requires (d.action == Completed || d.action == MisOneBlack) && d.tree.Node?
    requires DelPost(h0, h1, IdSet(t.right), mode, d, t.id, hi, d.action, qr, rem) && RemovedFrom(t.right, d)
    requires t.id in h1 && h2 == h1[t.id := h1[t.id].(right := qr)]
    ensures UniqueIds(Node(t.color, t.left, t.id, t.key, d.tree))
    ensures Linked(h2, Node(t.color, t.left, t.id, t.key, d.tree), lo, NewHi(mode, d, hi))
    ensures SameOutside(h0, h2, IdSet(t)) && IdSet(Node(t.color, t.left, t.id, t.key, d.tree)) <= IdSet(t)
    ensures rem in h2 && h2[rem].key == d.removedKey
    ensures d.action == Completed ==> DelPost(h0, h2, IdSet(t), mode, AfterRight(t, d), lo, hi, Completed, t.id, rem)
  {
    var Node(c, l, p, ky, r) := t;
    NodeAt(h0, t, lo, hi);
    LinkedIds(h0, t, lo, hi);
    assert Remaining(d) == d.tree;
    AttachRightHi(h0, h1, h2, c, l, d.tree, p, ky, r, lo, hi, NewHi(mode, d, hi));
    ChildRightIds(c, l, p, ky, r, d.tree, NULL);
  }

  /** What the successor writes need of the heap, and where the successor
      record is. */
  lemma SuccLeafPre(h0: Heap, t: Tree, lo: Ptr, hi: Ptr)
    requires t.Node? && t.left.Node? && t.right.Node? && UniqueIds(t) && Linked(h0, t, lo, hi)
    ensures t.id in h0 && h0[t.id].right == t.right.id && t.right.id in h0 && t.right.id != t.id && t.right.id != NULL
    ensures h0[t.id].left == t.left.id && IsLeftData(h0[t.id].status)
    ensures Linked(h0, t.left, lo, t.id) && t.right.id !in IdSet(t.left)
  {
    NodeAt(h0, t, lo, hi);
    NodeAt(h0, t.right, t.id, hi);
    LinkedIds(h0, t, lo, hi);
  }

  /** The successor, a leaf right child, in t's place. */
  lemma SuccLeafPost(h0: Heap, h: Heap, t: Tree, lo: Ptr, hi: Ptr, d: DelRes)
    requires t.Node? && t.left.Node? && t.right.Node? && UniqueIds(t) && Linked(h0, t, lo, hi)
    requires NoKid(d.action) && d.tree == t.right && t.right.left.Nil? && t.right.right.Nil?
    requires d.removed == t.right.id && d.removedKey == t.right.key
    requires SuccLeafDone(h0, h, t.id, t.right.id, RightmostId(t.left))
    ensures UniqueIds(Node(t.color, t.left, t.right.id, t.right.key, Nil))
    ensures Linked(h, Node(t.color, t.left, t.right.id, t.right.key, Nil), lo, hi)
    ensures SameOutside(h0, h, IdSet(t)) && IdSet(Node(t.color, t.left, t.right.id, t.right.key, Nil)) <= IdSet(t)
    ensures t.id in h && h[t.id].key == t.key
    ensures d.action == RedNoKid ==> DelPost(h0, h, IdSet(t), Search, Successor(t, d), lo, hi, Completed, t.right.id, t.id)
  {
    NodeAt(h0, t, lo, hi);
    LinkedIds(h0, t, lo, hi);
    SuccLeafLinked(h0, h, t, lo, hi);
  }

  lemma SuccMovePre(h0: Heap, h1: Heap, t: Tree, lo: Ptr, hi: Ptr, d: DelRes, sn: Ptr)
    requires t.Node? && t.left.Node? && t.right.Node? && UniqueIds(t) && Linked(h0, t, lo, hi)
    requires SameOutside(h0, h1, IdSet(t.right))
    requires sn in IdSet(t.right)
    ensures t.id in h1 && sn in h1 && sn != t.id && sn != NULL
    ensures h1[t.id].left == t.left.id && IsLeftData(h1[t.id].status)
    ensures Linked(h1, t.left, lo, t.id) && sn !in IdSet(t.left) && t.id !in IdSet(t.left)
  {
    NodeAt(h0, t, lo, hi);
    LinkedIds(h0, t, lo, hi);
    LinkedOutside(h0, h1, IdSet(t.right), t.left, lo, t.id);
  }

  /** The successor sn, taken out below, in t's place over the new right
      subtree. */
  lemma SuccMovePost(h0: Heap, h1: Heap, h: Heap, t: Tree, lo: Ptr, hi: Ptr, d: DelRes, qr: Ptr, sn: Ptr)
    requires t.Node? && t.left.Node? && t.right.Node? && UniqueIds(t) && Linked(h0, t, lo, hi)
    requires (d.action == Completed || d.action == MisOneBlack) && d.tree.Node?
    requires DelPost(h0, h1, IdSet(t.right), GoLeft, d, t.id, hi, d.action, qr, sn) && RemovedFrom(t.right, d)
    requires SuccMoveDone(h1, h, t.id, sn, RightmostId(t.left), qr)
    ensures UniqueIds(Node(t.color, t.left, sn, d.removedKey, d.tree))
    ensures Linked(h, Node(t.color, t.left, sn, d.removedKey, d.tree), lo, hi)
    ensures SameOutside(h0, h, IdSet(t)) && IdSet(Node(t.color, t.left, sn, d.removedKey, d.tree)) <= IdSet(t)
    ensures t.id in h && h[t.id].key == t.key
    ensures d.action == Completed ==> DelPost(h0, h, IdSet(t), Search, Successor(t, d), lo, hi, Completed, sn, t.id)
  {
    NodeAt(h0, t, lo, hi);
    LinkedIds(h0, t, lo, hi);
    assert Remaining(d) == d.tree;
    SuccMoveLinked(h0, h1, h, t, d.tree, sn, qr, lo, hi);
  }

  // ---------------------------------------------------------------
  // find_unlink_fix
  // ---------------------------------------------------------------

  method FufHeap(mem: Memory, p: Ptr, mode: DelMode, ghost t: Tree, ghost lo: Ptr, ghost hi: Ptr, k: int)
    returns (action: DelAction, q: Ptr, removed: Ptr)
    requires t.Node? && p == t.id && RB(t) && UniqueIds(t) && Linked(mem.nodes, t, lo, hi)
    modifies mem
    ensures FufPost(old(mem.nodes), mem.nodes, t, mode, k, lo, hi, action, q, removed)
    ensures mem.freed == old(mem.freed)
    decreases t, 2
  {
    NodeAt(mem.nodes, t, lo, hi);
    var rc: int;
    match mode {
      case Search => rc := Cmp(mem.nodes[p].key, k);
      case GoLeft => rc := if IsLeftThrd(mem.nodes[p].status) then 0 else 1;
      case GoRight => rc := if IsRightThrd(mem.nodes[p].status) then 0 else -1;
    }
    assert rc == StepCmp(t, mode, k);
    if rc == 0 {
      action, q, removed := UnlinkHeap(mem, p, mode, t, lo, hi, k);
    } else if rc > 0 {
      action, q, removed := FufLeft(mem, p, mode, t, lo, hi, k);
    } else {
      action, q, removed := FufRight(mem, p, mode, t, lo, hi, k);
    }
  }

  /** The descent into the left subtree (the key is smaller, or the walk
      to the smallest record goes on). */
  method FufLeft(mem: Memory, p: Ptr, mode: DelMode, ghost t: Tree, ghost lo: Ptr, ghost hi: Ptr, k: int)
    returns (action: DelAction, q: Ptr, removed: Ptr)
    requires t.Node? && p == t.id && RB(t) && UniqueIds(t) && Linked(mem.nodes, t, lo, hi)
    requires StepCmp(t, mode, k) > 0
    modifies mem
    ensures FufPost(old(mem.nodes), mem.nodes, t, mode, k, lo, hi, action, q, removed)
    ensures mem.freed == old(mem.freed)
    decreases t, 1
  {
    ghost var h0: Heap := mem.nodes;
    NodeAt(h0, t, lo, hi);
    if IsLeftThrd(mem.nodes[p].status) {
      return NotFound, p, NULL;
    }
    RBKids(t);
    var a, ql, rem := FufHeap(mem, mem.nodes[p].left, mode, t.left, lo, p, k);
    action, q, removed := AfterLeftHeap(mem, p, mode, t, lo, hi, k, a, ql, rem, h0);
  }

  /** The switch on the answer of the call into the left subtree. */
  method AfterLeftHeap(mem: Memory, p: Ptr, mode: DelMode, ghost t: Tree, ghost lo: Ptr, ghost hi: Ptr, ghost k: int,
                       a: DelAction, ql: Ptr, rem: Ptr, ghost h0: Heap)
    returns (action: DelAction, q: Ptr, removed: Ptr)
    requires t.Node? && t.left.Node? && p == t.id && RB(t) && UniqueIds(t) && Linked(h0, t, lo, hi)
    requires StepCmp(t, mode, k) > 0
    requires FufPost(h0, mem.nodes, t.left, mode, k, lo, t.id, a, ql, rem)
    modifies mem
    ensures FufPost(h0, mem.nodes, t, mode, k, lo, hi, action, q, removed)
    ensures mem.freed == old(mem.freed)
  {
    ghost var d := Fuf(t.left, mode, k);
    assert Fuf(t, mode, k) == AfterLeft(t, d);
    DelRB(t.left, mode, k);
    FufRemovedFrom(t.left, mode, k);
    if a == NotFound {
      return NotFound, p, NULL;
    } else if a == InvalidTree {
      assert false;
    } else if NoKid(a) {
      action, q, removed := LeftLeafCase(mem, p, mode, t, lo, hi, k, a, rem, h0, d);
    } else {
      action, q, removed := LeftTreeCase(mem, p, mode, t, lo, hi, k, a, ql, rem, h0, d);
    }
  }

  /** The call into the left subtree reported the leaf it found there. */
  method LeftLeafCase(mem: Memory, p: Ptr, mode: DelMode, ghost t: Tree, ghost lo: Ptr, ghost hi: Ptr, ghost k: int,
                      a: DelAction, rem: Ptr, ghost h0: Heap, ghost d: DelRes)
    returns (action: DelAction, q: Ptr, removed: Ptr)
    requires t.Node? && t.left.Node? && p == t.id && RB(t) && UniqueIds(t) && Linked(h0, t, lo, hi)
    requires StepCmp(t, mode, k) > 0 && NoKid(a)
    requires DelPost(h0, mem.nodes, IdSet(t.left), mode, d, lo, t.id, a, t.left.id, rem)
    requires DelKept(t.left, d) && RemovedFrom(t.left, d)
    modifies mem
    ensures DelPost(h0, mem.nodes, IdSet(t), mode, AfterLeft(t, d), lo, hi, action, q, removed)
    ensures mem.freed == old(mem.freed)
  {
    NodeAt(h0, t, lo, hi);
    NodeAt(h0, t.left, lo, p);
    LeftLeafWrites(mem, p, mode == Search);
    LeftLeafThread(h0, mem.nodes, mode, t, lo, hi, d);
    if a == RedNoKid {
      return Completed, p, rem;
    }
    action, q := LeftBalance(mem, p, t.color, Nil, t.key, t.right, NewLo(mode, d, lo), hi, t, d, h0, rem);
    removed := rem;
    DelPostRebase(h0, mem.nodes, IdSet(t), mode, AfterLeft(t, d), lo, hi, action, q, removed);
  }

  /** The call into the left subtree answered with a new left subtree. */
  method LeftTreeCase(mem: Memory, p: Ptr, mode: DelMode, ghost t: Tree, ghost lo: Ptr, ghost hi: Ptr, ghost k: int,
                      a: DelAction, ql: Ptr, rem: Ptr, ghost h0: Heap, ghost d: DelRes)
    returns (action: DelAction, q: Ptr, removed: Ptr)
    requires t.Node? && t.left.Node? && p == t.id && RB(t) && UniqueIds(t) && Linked(h0, t, lo, hi)
    requires StepCmp(t, mode, k) > 0 && (a == Completed || a == MisOneBlack)
    requires DelPost(h0, mem.nodes, IdSet(t.left), mode, d, lo, t.id, a, ql, rem)
    requires DelKept(t.left, d) && RemovedFrom(t.left, d)
    modifies mem
    ensures DelPost(h0, mem.nodes, IdSet(t), mode, AfterLeft(t, d), lo, hi, action, q, removed)
    ensures mem.freed == old(mem.freed)
  {
    ghost var h1: Heap := mem.nodes;
    NodeAt(h0, t, lo, hi);
    mem.nodes := mem.nodes[p := mem.nodes[p].(left := ql)];
    LeftTreeAttach(h0, h1, mem.nodes, mode, t, lo, hi, d, ql, rem);
    if a == Completed {
      return Completed, p, rem;
    }
    action, q := LeftBalance(mem, p, t.color, d.tree, t.key, t.right, NewLo(mode, d, lo), hi, t, d, h0, rem);
    removed := rem;
    DelPostRebase(h0, mem.nodes, IdSet(t), mode, AfterLeft(t, d), lo, hi, action, q, removed);
  }

  /** balance_black_left after the left subtree of t came back as x, one
      black level short. */
  method LeftBalance(mem: Memory, p: Ptr, ghost c: Color, ghost x: Tree, ghost ky: int, ghost r: Tree, ghost lo: Ptr, ghost hi: Ptr,
                     ghost t: Tree, ghost d: DelRes, ghost h0: Heap, ghost rem: Ptr)
    returns (action: DelAction, q: Ptr)
    requires t.Node? && t.left.Node? && RB(t) && DelKept(t.left, d) && (d.action == BlackNoKid || d.action == MisOneBlack)
    requires c == t.color && p == t.id && ky == t.key && r == t.right && UniqueIds(Node(c, x, p, ky, r))
    requires Linked(mem.nodes, Node(c, x, p, ky, r), lo, hi)
    requires SameOutside(h0, mem.nodes, IdSet(t)) && IdSet(Node(c, x, p, ky, r)) <= IdSet(t)
    requires rem in mem.nodes && mem.nodes[rem].key == d.removedKey
    modifies mem
    ensures DelPost(h0, mem.nodes, IdSet(t), Search, FromBalance(BalanceLeft(c, x, p, ky, r), rem, d.removedKey), lo, hi, action, q, rem)
    ensures mem.freed == old(mem.freed)
  {
    AfterLeftShape(t, d);
    ghost var h1: Heap := mem.nodes;
    var short;
    short, q := BalanceLeftHeap(mem, p, c, x, ky, r, lo, hi);
    action := if short then MisOneBlack else Completed;
    BalanceLeftNode(c, x, p, ky, r);
    BalanceDelPost(h0, h1, mem.nodes, IdSet(t), IdSet(Node(c, x, p, ky, r)), BalanceLeft(c, x, p, ky, r), short, q,
                   rem, d.removedKey, lo, hi);
  }

  /** The descent into the right subtree. */
  method FufRight(mem: Memory, p: Ptr, mode: DelMode, ghost t: Tree, ghost lo: Ptr, ghost hi: Ptr, k: int)
    returns (action: DelAction, q: Ptr, removed: Ptr)
    requires t.Node? && p == t.id && RB(t) && UniqueIds(t) && Linked(mem.nodes, t, lo, hi)
    requires StepCmp(t, mode, k) < 0
    modifies mem
    ensures FufPost(old(mem.nodes), mem.nodes, t, mode, k, lo, hi, action, q, removed)
    ensures mem.freed == old(mem.freed)
    decreases t, 1
  {
    ghost var h0: Heap := mem.nodes;
    NodeAt(h0, t, lo, hi);
    if IsRightThrd(mem.nodes[p].status) {
      return NotFound, p, NULL;
    }
    RBKids(t);
    var a, qr, rem := FufHeap(mem, mem.nodes[p].right, mode, t.right, p, hi, k);
    action, q, removed := AfterRightHeap(mem, p, mode, t, lo, hi, k, a, qr, rem, h0);
  }

  method AfterRightHeap(mem: Memory, p: Ptr, mode: DelMode, ghost t: Tree, ghost lo: Ptr, ghost hi: Ptr, ghost k: int,
                        a: DelAction, qr: Ptr, rem: Ptr, ghost h0: Heap)
    returns (action: DelAction, q: Ptr, removed: Ptr)
    requires t.Node? && t.right.Node? && p == t.id && RB(t) && UniqueIds(t) && Linked(h0, t, lo, hi)
    requires StepCmp(t, mode, k) < 0
    requires FufPost(h0, mem.nodes, t.right, mode, k, t.id, hi, a, qr, rem)
    modifies mem
    ensures FufPost(h0, mem.nodes, t, mode, k, lo, hi, action, q, removed)
    ensures mem.freed == old(mem.freed)
  {
    ghost var d := Fuf(t.right, mode, k);
    assert Fuf(t, mode, k) == AfterRight(t, d);
    DelRB(t.right, mode, k);
    FufRemovedFrom(t.right, mode, k);
    if a == NotFound {
      return NotFound, p, NULL;
    } else if a == InvalidTree {
      assert false;
    } else if NoKid(a) {
      action, q, removed := RightLeafCase(mem, p, mode, t, lo, hi, k, a, rem, h0, d);
    } else {
      action, q, removed := RightTreeCase(mem, p, mode, t, lo, hi, k, a, qr, rem, h0, d);
    }
  }

  method RightLeafCase(mem: Memory, p: Ptr, mode: DelMode, ghost t: Tree, ghost lo: Ptr, ghost hi: Ptr, ghost k: int,
                       a: DelAction, rem: Ptr, ghost h0: Heap, ghost d: DelRes)
    returns (action: DelAction, q: Ptr, removed: Ptr)
    requires t.Node? && t.right.Node? && p == t.id && RB(t) && UniqueIds(t) && Linked(h0, t, lo, hi)
    requires StepCmp(t, mode, k) < 0 && NoKid(a)
    requires DelPost(h0, mem.nodes, IdSet(t.right), mode, d, t.id, hi, a, t.right.id, rem)
    requires DelKept(t.right, d) && RemovedFrom(t.right, d)
    modifies mem
    ensures DelPost(h0, mem.nodes, IdSet(t), mode, AfterRight(t, d), lo, hi, action, q, removed)
    ensures mem.freed == old(mem.freed)
  {
    NodeAt(h0, t, lo, hi);
    NodeAt(h0, t.right, p, hi);
    RightLeafWrites(mem, p, mode == Search);
    RightLeafThread(h0, mem.nodes, mode, t, lo, hi, d);
    if a == RedNoKid {
      return Completed, p, rem;
    }
    action, q := RightBalance(mem, p, t.color, t.left, t.key, Nil, lo, NewHi(mode, d, hi), t, d, h0, rem, d.removedKey);
    removed := rem;
    DelPostRebase(h0, mem.nodes, IdSet(t), mode, AfterRight(t, d), lo, hi, action, q, removed);
  }

  method RightTreeCase(mem: Memory, p: Ptr, mode: DelMode, ghost t: Tree, ghost lo: Ptr, ghost hi: Ptr, ghost k: int,
                       a: DelAction, qr: Ptr, rem: Ptr, ghost h0: Heap, ghost d: DelRes)
    returns (action: DelAction, q: Ptr, removed: Ptr)
    requires t.Node? && t.right.Node? && p == t.id && RB(t) && UniqueIds(t) && Linked(h0, t, lo, hi)
    requires StepCmp(t, mode, k) < 0 && (a == Completed || a == MisOneBlack)
    requires DelPost(h0, mem.nodes, IdSet(t.right), mode, d, t.id, hi, a, qr, rem)
    requires DelKept(t.right, d) && RemovedFrom(t.right, d)
    modifies mem
    ensures DelPost(h0, mem.nodes, IdSet(t), mode, AfterRight(t, d), lo, hi, action, q, removed)
    ensures mem.freed == old(mem.freed)
  {
    ghost var h1: Heap := mem.nodes;
    NodeAt(h0, t, lo, hi);
    mem.nodes := mem.nodes[p := mem.nodes[p].(right := qr)];
    RightTreeAttach(h0, h1, mem.nodes, mode, t, lo, hi, d, qr, rem);
    if a == Completed {
      return Completed, p, rem;
    }
    action, q := RightBalance(mem, p, t.color, t.left, t.key, d.tree, lo, NewHi(mode, d, hi), t, d, h0, rem, d.removedKey);
    removed := rem;
    DelPostRebase(h0, mem.nodes, IdSet(t), mode, AfterRight(t, d), lo, hi, action, q, removed);
  }

  /** balance_black_right after the right subtree of t (or of the node
      whose place t's successor took) came back as x, one black level
      short. */
  method RightBalance(mem: Memory, p: Ptr, ghost c: Color, ghost l: Tree, ghost kp: int, ghost x: Tree, ghost lo: Ptr, ghost hi: Ptr,
                      ghost t: Tree, ghost d: DelRes, ghost h0: Heap, ghost rem: Ptr, ghost rk: int)
    returns (action: DelAction, q: Ptr)
    requires t.Node? && t.right.Node? && RB(t) && DelKept(t.right, d) && (d.action == BlackNoKid || d.action == MisOneBlack)
    requires c == t.color && l == t.left && UniqueIds(Node(c, l, p, kp, x))
    requires Linked(mem.nodes, Node(c, l, p, kp, x), lo, hi)
    requires SameOutside(h0, mem.nodes, IdSet(t)) && IdSet(Node(c, l, p, kp, x)) <= IdSet(t)
    requires rem in mem.nodes && mem.nodes[rem].key == rk
    modifies mem
    ensures DelPost(h0, mem.nodes, IdSet(t), Search, FromBalance(BalanceRight(c, l, p, kp, x), rem, rk), lo, hi, action, q, rem)
    ensures mem.freed == old(mem.freed)
  {
    AfterRightShape(t, d);
    ghost var h1: Heap := mem.nodes;
    var short;
    short, q := BalanceRightHeap(mem, p, c, l, kp, x, lo, hi);
    action := if short then MisOneBlack else Completed;
    BalanceRightNode(c, l, p, kp, x);
    BalanceDelPost(h0, h1, mem.nodes, IdSet(t), IdSet(Node(c, l, p, kp, x)), BalanceRight(c, l, p, kp, x), short, q,
                   rem, rk, lo, hi);
  }

  // ---------------------------------------------------------------
  // unlink_from_tree
  // ---------------------------------------------------------------

  method UnlinkHeap(mem: Memory, p: Ptr, mode: DelMode, ghost t: Tree, ghost lo: Ptr, ghost hi: Ptr, k: int)
    returns (action: DelAction, q: Ptr, removed: Ptr)
    requires t.Node? && p == t.id && RB(t) && UniqueIds(t) && Linked(mem.nodes, t, lo, hi)
    requires StepCmp(t, mode, k) == 0
    modifies mem
    ensures FufPost(old(mem.nodes), mem.nodes, t, mode, k, lo, hi, action, q, removed)
    ensures mem.freed == old(mem.freed)
    decreases t, 1
  {
    ghost var h0: Heap := mem.nodes;
    NodeAt(h0, t, lo, hi);
    assert Fuf(t, mode, k) == Unlink(t, mode, k);
    StatusCases(t.color == Red, t.left.Node?, t.right.Node?);
    var st := mem.nodes[p].status;
    if st == 0 {
      return BlackNoKid, p, p;
    } else if st == 1 {
      return RedNoKid, p, p;
    } else if st == 2 {
      OnlyChildLeft(t);
      NodeAt(h0, t.left, lo, p);
      q := OnlyLeftWrites(mem, p, mode == Search);
      OnlyLeftLinked(h0, mem.nodes, t, lo, hi, mode == Search);
      return Completed, q, p;
    } else if st == 4 {
      OnlyChildRight(t);
      NodeAt(h0, t.right, p, hi);
      q := OnlyRightWrites(mem, p, mode == Search);
      OnlyRightLinked(h0, mem.nodes, t, lo, hi, mode == Search);
      return Completed, q, p;
    } else if st == 6 || st == 7 {
      assert mode == Search;
      action, q, removed := TwoKids(mem, p, t, lo, hi, k);
    } else {
      RedKids(t);
      assert false;
    }
  }

  /** Cases 6 and 7: the walk to the smallest record of the right subtree
      takes the successor out, and the successor takes the node's place. */
  method TwoKids(mem: Memory, p: Ptr, ghost t: Tree, ghost lo: Ptr, ghost hi: Ptr, k: int)
    returns (action: DelAction, q: Ptr, removed: Ptr)
    requires t.Node? && t.left.Node? && t.right.Node? && p == t.id && RB(t) && UniqueIds(t) && Linked(mem.nodes, t, lo, hi)
    requires StepCmp(t, Search, k) == 0
    modifies mem
    ensures FufPost(old(mem.nodes), mem.nodes, t, Search, k, lo, hi, action, q, removed)
    ensures mem.freed == old(mem.freed)
    decreases t, 0
  {
    ghost var h0: Heap := mem.nodes;
    NodeAt(h0, t, lo, hi);
    RBKids(t);
    assert Fuf(t, Search, k) == Unlink(t, Search, k) == Successor(t, Fuf(t.right, GoLeft, k));
    var a, qr, sn := FufHeap(mem, mem.nodes[p].right, GoLeft, t.right, p, hi, k);
    ghost var d := Fuf(t.right, GoLeft, k);
    WalkFinds(t.right, k);
    DelRB(t.right, GoLeft, k);
    FufRemovedFrom(t.right, GoLeft, k);
    if NoKid(a) {
      action, q, removed := SuccLeafCase(mem, p, t, lo, hi, k, a, h0, d);
    } else {
      action, q, removed := SuccMoveCase(mem, p, t, lo, hi, k, a, qr, sn, h0, d);
    }
  }

  /** The successor was the right child itself, a leaf. */
  method SuccLeafCase(mem: Memory, p: Ptr, ghost t: Tree, ghost lo: Ptr, ghost hi: Ptr, ghost k: int, a: DelAction, ghost h0: Heap, ghost d: DelRes)
    returns (action: DelAction, q: Ptr, removed: Ptr)
    requires t.Node? && t.left.Node? && t.right.Node? && p == t.id && RB(t) && UniqueIds(t) && Linked(h0, t, lo, hi)
    requires NoKid(a) && DelPost(h0, mem.nodes, IdSet(t.right), GoLeft, d, t.id, hi, a, t.right.id, t.right.id)
    requires DelKept(t.right, d) && RemovedFrom(t.right, d)
    modifies mem
    ensures DelPost(h0, mem.nodes, IdSet(t), Search, Successor(t, d), lo, hi, action, q, removed)
    ensures mem.freed == old(mem.freed)
  {
    SuccLeafPre(h0, t, lo, hi);
    var s := SuccLeafWrites(mem, p, t.left, lo);
    SuccLeafPost(h0, mem.nodes, t, lo, hi, d);
    removed := p;
    if a == RedNoKid {
      return Completed, s, p;
    }
    action, q := RightBalance(mem, s, t.color, t.left, t.right.key, Nil, lo, hi, t, d, h0, p, t.key);
  }

  /** The successor sn was taken out further down the right subtree,
      which now has root qr. */
  method SuccMoveCase(mem: Memory, p: Ptr, ghost t: Tree, ghost lo: Ptr, ghost hi: Ptr, ghost k: int,
                      a: DelAction, qr: Ptr, sn: Ptr, ghost h0: Heap, ghost d: DelRes)
    returns (action: DelAction, q: Ptr, removed: Ptr)
    requires t.Node? && t.left.Node? && t.right.Node? && p == t.id && RB(t) && UniqueIds(t) && Linked(h0, t, lo, hi)
    requires (a == Completed || a == MisOneBlack) && DelPost(h0, mem.nodes, IdSet(t.right), GoLeft, d, t.id, hi, a, qr, sn)
    requires DelKept(t.right, d) && RemovedFrom(t.right, d)
    modifies mem
    ensures DelPost(h0, mem.nodes, IdSet(t), Search, Successor(t, d), lo, hi, action, q, removed)
    ensures mem.freed == old(mem.freed)
  {
    ghost var h1: Heap := mem.nodes;
    SuccMovePre(h0, h1, t, lo, hi, d, sn);
    var m := SuccMoveWrites(mem, p, qr, sn, t.left, lo);
    SuccMovePost(h0, h1, mem.nodes, t, lo, hi, d, qr, sn);
    removed := p;
    if a == Completed {
      return Completed, sn, p;
    }
    action, q := RightBalance(mem, sn, t.color, t.left, d.removedKey, d.tree, lo, hi, t, d, h0, p, t.key);
  }

  // ---------------------------------------------------------------
  // delete_node and the four entry points
  // ---------------------------------------------------------------

  /** The argument handed to delete_node: a NULL pointer, or the key it
      designates (rbt_delkey passes the key, rbt_delnode a record whose key
      nodeCmp compares). */
  datatype DelArg = NullArg | KeyArg(k: int)

  /** What the search from the root answers on a red-black search tree:
      nothing when k is absent, and otherwise the record holding k, with
      the records left linked as DeleteTree. */
  lemma SearchOutcome(h0: Heap, h: Heap, t: Tree, k: int, action: DelAction, q: Ptr, rem: Ptr)
    requires t.Node? && SearchTree(t) && RB(t) && UniqueIds(t) && Linked(h0, t, NULL, NULL)
    requires FufPost(h0, h, t, Search, k, NULL, NULL, action, q, rem)
    ensures action != InvalidTree && (action == NotFound <==> k !in KeySet(t))
    ensures action == NotFound ==> h == h0 && DeleteTree(t, k) == t
    ensures action != NotFound ==>
      && k in Contents(t) && rem == Contents(t)[k] && rem != NULL && rem in h && h[rem].key == k
      && rem in IdSet(t) && rem !in IdSet(DeleteTree(t, k))
      && RootPtr(DeleteTree(t, k)) == (if NoKid(action) then NULL else q)
      && Linked(h, DeleteTree(t, k), NULL, NULL) && SameOutside(h0, h, IdSet(t))
  {
    var d := Fuf(t, Search, k);
    DelByKey(t, k);
    DelRB(t, Search, k);
    LinkedIds(h0, t, NULL, NULL);
    FufRemovedFrom(t, Search, k);
    assert DeleteTree(t, k) == if Found(d.action) then Remaining(d) else t;
  }

  /** What delete_node does to the records of a non-empty tree: the search
      from the root takes the record holding k out (the root slot empties
      when the root was the only record), then that record is cleared when
      the caller keeps it and goes to the freeNode hook otherwise. */
  method DeleteRecords(mem: Memory, root: Ptr, k: int, keep: bool, ghost t: Tree) returns (found: bool, removed: Ptr, q: Ptr)
    requires t.Node? && root == t.id && SearchTree(t) && RB(t) && UniqueIds(t) && Linked(mem.nodes, t, NULL, NULL)
    modifies mem
    ensures found == (k in KeySet(t))
    ensures q == RootPtr(DeleteTree(t, k)) && Linked(mem.nodes, DeleteTree(t, k), NULL, NULL)
    ensures !found ==> removed == NULL && mem.nodes == old(mem.nodes) && mem.freed == old(mem.freed)
    ensures found ==> k in Contents(t) && removed == Contents(t)[k] && removed in mem.nodes && removed != NULL
    ensures found ==> mem.nodes[removed].key == k
    ensures found ==> SameOutside(old(mem.nodes), mem.nodes, IdSet(t))
    ensures found && keep ==>
      mem.nodes[removed] == old(mem.nodes[removed]).(left := NULL, right := NULL, status := 0) && mem.freed == old(mem.freed)
    ensures found && !keep ==> mem.freed == old(mem.freed) + [removed]
  {
    ghost var h0: Heap := mem.nodes;
    var action, q0, rem := FufHeap(mem, root, Search, t, NULL, NULL, k);
    SearchOutcome(h0, mem.nodes, t, k, action, q0, rem);
    if action == NotFound {
      return false, NULL, root;
    }
    found, removed := true, rem;
    q := if NoKid(action) then NULL else q0;
    ghost var h1: Heap := mem.nodes;
    Dispose(mem, removed, keep, DeleteTree(t, k));
    SameOutsideTrans(h0, h1, mem.nodes, IdSet(t), {removed}, IdSet(t));
  }

  /** The handle after delete_node satisfies the invariant. */
  lemma DeletedValid(rbt: Rbt, mem: Memory, t: Tree, k: int)
    requires SearchTree(t) && UniqueIds(t) && RB(t) && IsBlackRooted(t)
    requires rbt.T == DeleteTree(t, k) && rbt.root == RootPtr(rbt.T)
    requires Linked(mem.nodes, rbt.T, NULL, NULL)
    requires rbt.size + (if k in KeySet(t) then 1 else 0) == |InOrder(t)|
    ensures rbt.Valid(mem)
  {
    DeleteTreeValid(t, k);
  }

  /** delete_node for an argument that is not NULL, from the point where
      the out-pointer has been cleared (oldNode0 is what it holds then). */
  method DeleteKey(rbt: Rbt, mem: Memory, k: int, keep: bool, oldNode0: Ptr) returns (rc: int, oldNode: Ptr)
    requires rbt.Valid(mem)
    modifies rbt, mem
    ensures rbt.Valid(mem)
    ensures rbt.def == old(rbt.def) && rbt.released == old(rbt.released)
    ensures rc == if k in Contents(old(rbt.T)) then RC_OK else RC_NOTFOUND
    ensures rbt.T == DeleteTree(old(rbt.T), k) && Contents(rbt.T) == Contents(old(rbt.T)) - {k}
    ensures rbt.size == old(rbt.size) - if rc == RC_OK then 1 else 0
    ensures rc != RC_OK ==> mem.nodes == old(mem.nodes) && mem.freed == old(mem.freed) && oldNode == oldNode0
    ensures rc == RC_OK ==>
      var n := Contents(old(rbt.T))[k];
      && n in mem.nodes && mem.nodes[n].key == k
      && SameOutside(old(mem.nodes), mem.nodes, IdSet(old(rbt.T)))
      && oldNode == (if keep then n else oldNode0)
      && (keep ==> mem.nodes[n] == old(mem.nodes[n]).(left := NULL, right := NULL, status := 0))
      && mem.freed == old(mem.freed) + if keep then [] else [n]
  {
    oldNode := oldNode0;
    ghost var t := rbt.T;
    DeleteTreeValid(t, k);
    ContentsKeys(t);
    if rbt.root == NULL {
      return RC_NOTFOUND, oldNode;
    }
    var found, removed, q := DeleteRecords(mem, rbt.root, k, keep, t);
    if !found {
      return RC_NOTFOUND, oldNode;
    }
    rbt.root := q;
    rbt.T := DeleteTree(t, k);
    rbt.size := rbt.size - 1;
    if keep {
      oldNode := removed;
    }
    rc := RC_OK;
    DeletedValid(rbt, mem, t, k);
  }

  /** delete_node.  keep says whether the caller passed the old_node
      out-pointer and prior is what it held before the call; oldNode is
      what it holds afterwards: the removed record, cleared, on success,
      and NULL otherwise.  A NULL argument is an error. */
  method DeleteNode(rbt: Rbt, mem: Memory, arg: DelArg, keep: bool, prior: Ptr) returns (rc: int, oldNode: Ptr)
    requires rbt.Valid(mem)
    modifies rbt, mem
    ensures rbt.Valid(mem)
    ensures rbt.def == old(rbt.def) && rbt.released == old(rbt.released)
    ensures !keep ==> oldNode == prior
    ensures arg.NullArg? ==> rc == RC_ERROR && rbt.T == old(rbt.T) && rbt.size == old(rbt.size)
    ensures arg.KeyArg? ==> rc == if arg.k in Contents(old(rbt.T)) then RC_OK else RC_NOTFOUND
    ensures arg.KeyArg? ==> rbt.T == DeleteTree(old(rbt.T), arg.k) && Contents(rbt.T) == Contents(old(rbt.T)) - {arg.k}
    ensures rbt.size == old(rbt.size) - if rc == RC_OK then 1 else 0
    ensures SameOutside(old(mem.nodes), mem.nodes, IdSet(old(rbt.T)))
    ensures rc != RC_OK ==> mem.nodes == old(mem.nodes) && mem.freed == old(mem.freed) && (keep ==> oldNode == NULL)
    ensures rc == RC_OK ==>
      var n := Contents(old(rbt.T))[arg.k];
      && n in mem.nodes && mem.nodes[n].key == arg.k
      && SameOutside(old(mem.nodes), mem.nodes, IdSet(old(rbt.T)))
      && (keep ==> oldNode == n && mem.nodes[n] == old(mem.nodes[n]).(left := NULL, right := NULL, status := 0))
      && mem.freed == old(mem.freed) + if keep then [] else [n]
  {
    oldNode := if keep then NULL else prior;
    if arg.NullArg? {
      return RC_ERROR, oldNode;
    }
    rc, oldNode := DeleteKey(rbt, mem, arg.k, keep, oldNode);
  }

  /** rbt_delkey: delete by key; the removed record goes to freeNode. */
  method DelKey(rbt: Rbt, mem: Memory, key: DelArg) returns (rc: int)
    requires rbt.Valid(mem)
    modifies rbt, mem
    ensures rbt.Valid(mem)
    ensures rbt.def == old(rbt.def) && rbt.released == old(rbt.released)
    ensures SameOutside(old(mem.nodes), mem.nodes, IdSet(old(rbt.T)))
    ensures rbt.size == old(rbt.size) - if rc == RC_OK then 1 else 0
    ensures key.NullArg? ==> rc == RC_ERROR && rbt.T == old(rbt.T) && mem.nodes == old(mem.nodes)
    ensures key.KeyArg? ==> rc == if key.k in Contents(old(rbt.T)) then RC_OK else RC_NOTFOUND
    ensures key.KeyArg? ==> rbt.T == DeleteTree(old(rbt.T), key.k) && Contents(rbt.T) == Contents(old(rbt.T)) - {key.k}
    ensures rc == RC_OK ==> mem.freed == old(mem.freed) + [Contents(old(rbt.T))[key.k]]
    ensures rc != RC_OK ==> mem.freed == old(mem.freed)
  {
    var oldNode;
    rc, oldNode := DeleteNode(rbt, mem, key, false, NULL);
  }

  /** rbt_delkey_keep: delete by key and hand the removed record back. */
  method DelKeyKeep(rbt: Rbt, mem: Memory, key: DelArg) returns (rc: int, oldNode: Ptr)
    requires rbt.Valid(mem)
    modifies rbt, mem
    ensures rbt.Valid(mem)
    ensures rbt.def == old(rbt.def) && rbt.released == old(rbt.released)
    ensures SameOutside(old(mem.nodes), mem.nodes, IdSet(old(rbt.T)))
    ensures rbt.size == old(rbt.size) - if rc == RC_OK then 1 else 0
    ensures key.NullArg? ==> rc == RC_ERROR && rbt.T == old(rbt.T) && mem.nodes == old(mem.nodes)
    ensures key.KeyArg? ==> rc == if key.k in Contents(old(rbt.T)) then RC_OK else RC_NOTFOUND
    ensures key.KeyArg? ==> rbt.T == DeleteTree(old(rbt.T), key.k) && Contents(rbt.T) == Contents(old(rbt.T)) - {key.k}
    ensures oldNode == if rc == RC_OK then Contents(old(rbt.T))[key.k] else NULL
    ensures rc == RC_OK ==> oldNode in mem.nodes && oldNode in old(mem.nodes) && mem.nodes[oldNode] == old(mem.nodes[oldNode]).(left := NULL, right := NULL, status := 0)
    ensures mem.freed == old(mem.freed)
  {
    rc, oldNode := DeleteNode(rbt, mem, key, true, NULL);
  }

  /** The argument nodeCmp compares against: the key of the caller's
      record, or the NULL argument. */
  function NodeArg(mem: Memory, node: Ptr): (a: DelArg)
    requires node != NULL ==> node in mem.nodes
    reads mem
    ensures a.NullArg? <==> node == NULL
    ensures node != NULL ==> a.k == mem.nodes[node].key
  {
    if node == NULL then NullArg else KeyArg(mem.nodes[node].key)
  }

  /** rbt_delnode: delete the record whose key equals that of node. */
  method DelNode(rbt: Rbt, mem: Memory, node: Ptr) returns (rc: int)
    requires rbt.Valid(mem) && (node != NULL ==> node in mem.nodes)
    modifies rbt, mem
    ensures rbt.Valid(mem)
    ensures rbt.def == old(rbt.def) && rbt.released == old(rbt.released)
    ensures SameOutside(old(mem.nodes), mem.nodes, IdSet(old(rbt.T)))
    ensures rbt.size == old(rbt.size) - if rc == RC_OK then 1 else 0
    ensures node == NULL ==> rc == RC_ERROR && rbt.T == old(rbt.T) && mem.nodes == old(mem.nodes)
    ensures node != NULL ==> rc == if old(mem.nodes[node].key) in Contents(old(rbt.T)) then RC_OK else RC_NOTFOUND
    ensures node != NULL ==> rbt.T == DeleteTree(old(rbt.T), old(mem.nodes[node].key))
    ensures node != NULL ==> Contents(rbt.T) == Contents(old(rbt.T)) - {old(mem.nodes[node].key)}
    ensures rc == RC_OK ==> mem.freed == old(mem.freed) + [Contents(old(rbt.T))[old(mem.nodes[node].key)]]
    ensures rc != RC_OK ==> mem.freed == old(mem.freed)
  {
    var oldNode;
    rc, oldNode := DeleteNode(rbt, mem, NodeArg(mem, node), false, NULL);
  }

  /** rbt_delnode_keep: delete by node and hand the removed record back. */
  method DelNodeKeep(rbt: Rbt, mem: Memory, node: Ptr) returns (rc: int, oldNode: Ptr)
    requires rbt.Valid(mem) && (node != NULL ==> node in mem.nodes)
    modifies rbt, mem
    ensures rbt.Valid(mem)
    ensures rbt.def == old(rbt.def) && rbt.released == old(rbt.released)
    ensures SameOutside(old(mem.nodes), mem.nodes, IdSet(old(rbt.T)))
    ensures rbt.size == old(rbt.size) - if rc == RC_OK then 1 else 0
    ensures node == NULL ==> rc == RC_ERROR && rbt.T == old(rbt.T) && mem.nodes == old(mem.nodes)
    ensures node != NULL ==> rc == if old(mem.nodes[node].key) in Contents(old(rbt.T)) then RC_OK else RC_NOTFOUND
    ensures node != NULL ==> rbt.T == DeleteTree(old(rbt.T), old(mem.nodes[node].key))
    ensures node != NULL ==> Contents(rbt.T) == Contents(old(rbt.T)) - {old(mem.nodes[node].key)}
    ensures oldNode == if rc == RC_OK then Contents(old(rbt.T))[old(mem.nodes[node].key)] else NULL
    ensures rc == RC_OK ==> oldNode in mem.nodes && oldNode in old(mem.nodes) && mem.nodes[oldNode] == old(mem.nodes[oldNode]).(left := NULL, right := NULL, status := 0)
    ensures mem.freed == old(mem.freed)
  {
    rc, oldNode := DeleteNode(rbt, mem, NodeArg(mem, node), true, NULL);
  }
}
