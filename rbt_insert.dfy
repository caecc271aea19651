/*********************************************************************
 * Insertion on the caller's records (rbt_insert.c).
 *
 * insert_node writes the new subtree root through a pointer to the slot
 * that holds it (rbt->root or a child slot of the parent).  Here each
 * step returns the new slot value and the caller stores it, which writes
 * the same records with the same values.
 *
 * Each rebalancing step comes in two layers: a method that performs the
 * writes of the C code on the records, specified by a predicate saying
 * what each touched record becomes (the *Done predicates), and a lemma
 * proving that those writes turn the linked subtree into the one the
 * matching function of RbtInsertSpec builds, threads included.  The
 * recursive InsertNode is then proved to spell out Ins(t, x, k) on the
 * records and to touch nothing outside the subtree and the new record.
 *********************************************************************/
module RbtInsert {
  import opened RbtInternal
  import opened RbtTree
  import opened RbtLinks
  import opened RbtTypes
  import opened RbtInsertSpec

  // ---------------------------------------------------------------
  // Case 3: recolour
  // ---------------------------------------------------------------

  /** The two children a and b of p turn black and p turns red. */
  ghost predicate RecolourDone(h: Heap, h': Heap, p: Ptr, a: Ptr, b: Ptr) {
    && p in h && a in h && b in h && p != a && p != b && a != b
    && h'.Keys == h.Keys
    && (forall z | z in h && z != p && z != a && z != b :: h'[z] == h[z])
    && h'[a] == h[a].(status := WithBlack(h[a].status))
    && h'[b] == h[b].(status := WithBlack(h[b].status))
    && h'[p] == h[p].(status := WithRed(h[p].status))
  }

  method RecolourWrites(mem: Memory, p: Ptr)
    requires p in mem.nodes && mem.nodes[p].left in mem.nodes && mem.nodes[p].right in mem.nodes
    requires p != mem.nodes[p].left && p != mem.nodes[p].right && mem.nodes[p].left != mem.nodes[p].right
    modifies mem
    ensures RecolourDone(old(mem.nodes), mem.nodes, p, old(mem.nodes[p].left), old(mem.nodes[p].right))
    ensures mem.freed == old(mem.freed)
  {
    var h: Heap := mem.nodes;
    var a := h[p].left;
    h := h[a := h[a].(status := WithBlack(h[a].status))];
    var b := h[p].right;
    h := h[b := h[b].(status := WithBlack(h[b].status))];
    h := h[p := h[p].(status := WithRed(h[p].status))];
    mem.nodes := h;
  }

  lemma RecolourLinked(h: Heap, h': Heap, c: Color, l: Tree, p: Ptr, ky: int, r: Tree, lo: Ptr, hi: Ptr)
    requires l.Node? && r.Node? && UniqueIds(Node(c, l, p, ky, r)) && Linked(h, Node(c, l, p, ky, r), lo, hi)
    requires RecolourDone(h, h', p, l.id, r.id)
    ensures Linked(h', Recolour(l, p, ky, r), lo, hi)
    ensures SameOutside(h, h', {p, l.id, r.id})
  {
    var Node(cl, a, x, kx, b) := l;
    var Node(cr, d, y, kr, e) := r;
    NodeAt(h, Node(c, l, p, ky, r), lo, hi);
    NodeAt(h, l, lo, p);
    NodeAt(h, r, p, hi);
    var s := {p, x, y};
    RecolourIds(c, l, p, ky, r);
    assert SameOutside(h, h', s);
    LinkedOutside(h, h', s, a, lo, x);
    LinkedOutside(h, h', s, b, x, p);
    LinkedOutside(h, h', s, d, p, y);
    LinkedOutside(h, h', s, e, y, hi);
    assert h'[x] == RecordOf(Black, a, kx, b, lo, p);
    LinkedNode(h', Black, a, x, kx, b, lo, p);
    assert h'[y] == RecordOf(Black, d, kr, e, p, hi);
    LinkedNode(h', Black, d, y, kr, e, p, hi);
    assert h'[p] == RecordOf(Red, Blacken(l), ky, Blacken(r), lo, hi);
    LinkedNode(h', Red, Blacken(l), p, ky, Blacken(r), lo, hi);
  }

  // ---------------------------------------------------------------
  // Case 4: rotate the red child so the red grandchild is outside
  // ---------------------------------------------------------------

  /** Left side: a is the left child of p and b its right child; b moves
      up into the left slot of p, a becomes its left child and takes over
      its left subtree (or a thread to b). */
  ghost predicate RotateLeftDone(h: Heap, h': Heap, p: Ptr, a: Ptr, b: Ptr) {
    && p in h && a in h && b in h && p != a && p != b && a != b
    && h'.Keys == h.Keys
    && (forall z | z in h && z != p && z != a && z != b :: h'[z] == h[z])
    && h'[p] == h[p].(left := b)
    && h'[a] == h[a].(right := if IsLeftData(h[b].status) then h[b].left else b,
                      status := StatusOf(IsRed(h[a].status), IsLeftData(h[a].status), IsLeftData(h[b].status)))
    && h'[b] == h[b].(left := a, status := StatusOf(IsRed(h[b].status), true, IsRightData(h[b].status)))
  }

  method RotateLeftWrites(mem: Memory, p: Ptr) returns (ghost a: Ptr, ghost b: Ptr)
    requires p in mem.nodes && mem.nodes[p].left in mem.nodes
    requires mem.nodes[mem.nodes[p].left].right in mem.nodes
    requires p != mem.nodes[p].left && p != mem.nodes[mem.nodes[p].left].right
    requires mem.nodes[p].left != mem.nodes[mem.nodes[p].left].right
    requires mem.nodes[mem.nodes[p].left].status < 8 && mem.nodes[mem.nodes[mem.nodes[p].left].right].status < 8
    requires IsRightData(mem.nodes[mem.nodes[p].left].status)
    modifies mem
    ensures a == old(mem.nodes[p].left) && b == old(mem.nodes[mem.nodes[p].left].right)
    ensures RotateLeftDone(old(mem.nodes), mem.nodes, p, a, b)
    ensures mem.freed == old(mem.freed)
  {
    var h: Heap := mem.nodes;
    var ln := h[p].left;
    var cn := h[ln].right;
    a, b := ln, cn;
    StatusDecode(h[ln].status);
    StatusDecode(h[cn].status);
    if IsLeftThrd(h[cn].status) {
      h := h[ln := h[ln].(right := cn)];
      h := h[ln := h[ln].(status := WithRightThrd(h[ln].status))];
      h := h[cn := h[cn].(status := WithLeftData(h[cn].status))];
    } else {
      h := h[ln := h[ln].(right := h[cn].left)];
    }
    h := h[cn := h[cn].(left := ln)];
    h := h[p := h[p].(left := cn)];
    mem.nodes := h;
  }

  lemma RotateLeftLinked(h: Heap, h': Heap, c: Color, l: Tree, p: Ptr, ky: int, r: Tree, lo: Ptr, hi: Ptr)
    requires l.Node? && l.right.Node?
    requires UniqueIds(Node(c, l, p, ky, r)) && Linked(h, Node(c, l, p, ky, r), lo, hi)
    requires RotateLeftDone(h, h', p, l.id, l.right.id)
    ensures Linked(h', Node(c, RotateLeft(l), p, ky, r), lo, hi)
    ensures SameOutside(h, h', {p, l.id, l.right.id})
  {
    var Node(cl, a, x, kx, b) := l;
    var Node(cb, bl, y, kb, br) := b;
    NodeAt(h, Node(c, l, p, ky, r), lo, hi);
    NodeAt(h, l, lo, p);
    NodeAt(h, b, x, p);
    var s := {p, x, y};
    RotateLeftIds(c, l, p, ky, r);
    assert SameOutside(h, h', s);
    LinkedOutside(h, h', s, a, lo, x);
    LinkedOutside(h, h', s, bl, x, y);
    LinkedOutside(h, h', s, br, y, p);
    LinkedOutside(h, h', s, r, p, hi);
    LinkedNode(h', cl, a, x, kx, bl, lo, y);
    LinkedNode(h', cb, Node(cl, a, x, kx, bl), y, kb, br, lo, p);
    LinkedNode(h', c, RotateLeft(l), p, ky, r, lo, hi);
  }

  /** Right side: a is the right child of p and b its left child. */
  ghost predicate RotateRightDone(h: Heap, h': Heap, p: Ptr, a: Ptr, b: Ptr) {
    && p in h && a in h && b in h && p != a && p != b && a != b
    && h'.Keys == h.Keys
    && (forall z | z in h && z != p && z != a && z != b :: h'[z] == h[z])
    && h'[p] == h[p].(right := b)
    && h'[a] == h[a].(left := if IsRightData(h[b].status) then h[b].right else b,
                      status := StatusOf(IsRed(h[a].status), IsRightData(h[b].status), IsRightData(h[a].status)))
    && h'[b] == h[b].(right := a, status := StatusOf(IsRed(h[b].status), IsLeftData(h[b].status), true))
  }

  method RotateRightWrites(mem: Memory, p: Ptr) returns (ghost a: Ptr, ghost b: Ptr)
    requires p in mem.nodes && mem.nodes[p].right in mem.nodes
    requires mem.nodes[mem.nodes[p].right].left in mem.nodes
    requires p != mem.nodes[p].right && p != mem.nodes[mem.nodes[p].right].left
    requires mem.nodes[p].right != mem.nodes[mem.nodes[p].right].left
    requires mem.nodes[mem.nodes[p].right].status < 8 && mem.nodes[mem.nodes[mem.nodes[p].right].left].status < 8
    requires IsLeftData(mem.nodes[mem.nodes[p].right].status)
    modifies mem
    ensures a == old(mem.nodes[p].right) && b == old(mem.nodes[mem.nodes[p].right].left)
    ensures RotateRightDone(old(mem.nodes), mem.nodes, p, a, b)
    ensures mem.freed == old(mem.freed)
  {
    var h: Heap := mem.nodes;
    var rn := h[p].right;
    var cn := h[rn].left;
    a, b := rn, cn;
    StatusDecode(h[rn].status);
    StatusDecode(h[cn].status);
    if IsRightThrd(h[cn].status) {
      h := h[rn := h[rn].(left := cn)];
      h := h[rn := h[rn].(status := WithLeftThrd(h[rn].status))];
      h := h[cn := h[cn].(status := WithRightData(h[cn].status))];
    } else {
      h := h[rn := h[rn].(left := h[cn].right)];
    }
    h := h[cn := h[cn].(right := rn)];
    h := h[p := h[p].(right := cn)];
    mem.nodes := h;
  }

  lemma RotateRightLinked(h: Heap, h': Heap, c: Color, l: Tree, p: Ptr, ky: int, r: Tree, lo: Ptr, hi: Ptr)
    requires r.Node? && r.left.Node?
    requires UniqueIds(Node(c, l, p, ky, r)) && Linked(h, Node(c, l, p, ky, r), lo, hi)
    requires RotateRightDone(h, h', p, r.id, r.left.id)
    ensures Linked(h', Node(c, l, p, ky, RotateRight(r)), lo, hi)
    ensures SameOutside(h, h', {p, r.id, r.left.id})
  {
    var Node(cr, b, x, kx, a) := r;
    var Node(cb, bl, y, kb, br) := b;
    NodeAt(h, Node(c, l, p, ky, r), lo, hi);
    NodeAt(h, r, p, hi);
    NodeAt(h, b, p, x);
    var s := {p, x, y};
    RotateRightIds(c, l, p, ky, r);
    assert SameOutside(h, h', s);
    LinkedOutside(h, h', s, l, lo, p);
    LinkedOutside(h, h', s, bl, p, y);
    LinkedOutside(h, h', s, br, y, x);
    LinkedOutside(h, h', s, a, x, hi);
    LinkedNode(h', cr, br, x, kx, a, y, hi);
    LinkedNode(h', cb, bl, y, kb, Node(cr, br, x, kx, a), p, hi);
    LinkedNode(h', c, l, p, ky, RotateRight(r), lo, hi);
  }

  // ---------------------------------------------------------------
  // Case 5: rotate at the black grandparent and swap colours
  // ---------------------------------------------------------------

  /** Left side: q, the left child of p, becomes the black root with p as
      its red right child; p takes over the right subtree of q (or a
      thread to it). */
  ghost predicate Case5LeftDone(h: Heap, h': Heap, p: Ptr, q: Ptr) {
    && p in h && q in h && p != q
    && h'.Keys == h.Keys
    && (forall z | z in h && z != p && z != q :: h'[z] == h[z])
    && h'[p] == h[p].(left := if IsRightData(h[q].status) then h[q].right else q,
                      status := StatusOf(true, IsRightData(h[q].status), IsRightData(h[p].status)))
    && h'[q] == h[q].(right := p, status := StatusOf(false, IsLeftData(h[q].status), true))
  }

  method Case5LeftWrites(mem: Memory, p: Ptr) returns (q: Ptr)
    requires p in mem.nodes && mem.nodes[p].left in mem.nodes && mem.nodes[p].left != p
    requires mem.nodes[p].status < 8 && mem.nodes[mem.nodes[p].left].status < 8
    requires IsLeftData(mem.nodes[p].status)
    modifies mem
    ensures q == old(mem.nodes[p].left)
    ensures Case5LeftDone(old(mem.nodes), mem.nodes, p, q)
    ensures mem.freed == old(mem.freed)
  {
    var h: Heap := mem.nodes;
    var cn := h[p].left;
    if IsRightThrd(h[cn].status) {
      h := h[p := h[p].(left := cn)];
      h := h[p := h[p].(status := WithLeftThrd(h[p].status))];
      h := h[cn := h[cn].(status := WithRightData(h[cn].status))];
    } else {
      h := h[p := h[p].(left := h[cn].right)];
    }
    h := h[cn := h[cn].(right := p)];
    q := cn;
    h := h[q := h[q].(status := WithBlack(h[q].status))];
    var n := h[q].right;
    h := h[n := h[n].(status := WithRed(h[n].status))];
    mem.nodes := h;
  }

  lemma Case5LeftLinked(h: Heap, h': Heap, c: Color, l: Tree, p: Ptr, ky: int, r: Tree, lo: Ptr, hi: Ptr)
    requires l.Node? && UniqueIds(Node(c, l, p, ky, r)) && Linked(h, Node(c, l, p, ky, r), lo, hi)
    requires Case5LeftDone(h, h', p, l.id)
    ensures Linked(h', Case5Left(l, p, ky, r), lo, hi)
    ensures SameOutside(h, h', {p, l.id})
  {
    NodeAt(h, Node(c, l, p, ky, r), lo, hi);
    NodeAt(h, l, lo, p);
    Case5LeftIds(c, l, p, ky, r);
    assert SameOutside(h, h', {p, l.id});
    LinkedOutside(h, h', {p, l.id}, l.left, lo, l.id);
    LinkedOutside(h, h', {p, l.id}, l.right, l.id, p);
    LinkedOutside(h, h', {p, l.id}, r, p, hi);
  }

  /** Right side: q, the right child of p, becomes the black root with p
      as its red left child. */
  ghost predicate Case5RightDone(h: Heap, h': Heap, p: Ptr, q: Ptr) {
    && p in h && q in h && p != q
    && h'.Keys == h.Keys
    && (forall z | z in h && z != p && z != q :: h'[z] == h[z])
    && h'[p] == h[p].(right := if IsLeftData(h[q].status) then h[q].left else q,
                      status := StatusOf(true, IsLeftData(h[p].status), IsLeftData(h[q].status)))
    && h'[q] == h[q].(left := p, status := StatusOf(false, true, IsRightData(h[q].status)))
  }

  method Case5RightWrites(mem: Memory, p: Ptr) returns (q: Ptr)
    requires p in mem.nodes && mem.nodes[p].right in mem.nodes && mem.nodes[p].right != p
    requires mem.nodes[p].status < 8 && mem.nodes[mem.nodes[p].right].status < 8
    requires IsRightData(mem.nodes[p].status)
    modifies mem
    ensures q == old(mem.nodes[p].right)
    ensures Case5RightDone(old(mem.nodes), mem.nodes, p, q)
    ensures mem.freed == old(mem.freed)
  {
    var h: Heap := mem.nodes;
    var cn := h[p].right;
    if IsLeftThrd(h[cn].status) {
      h := h[p := h[p].(right := cn)];
      h := h[p := h[p].(status := WithRightThrd(h[p].status))];
      h := h[cn := h[cn].(status := WithLeftData(h[cn].status))];
    } else {
      h := h[p := h[p].(right := h[cn].left)];
    }
    h := h[cn := h[cn].(left := p)];
    q := cn;
    h := h[q := h[q].(status := WithBlack(h[q].status))];
    var n := h[q].left;
    h := h[n := h[n].(status := WithRed(h[n].status))];
    mem.nodes := h;
  }

  lemma Case5RightLinked(h: Heap, h': Heap, c: Color, l: Tree, p: Ptr, ky: int, r: Tree, lo: Ptr, hi: Ptr)
    requires r.Node? && UniqueIds(Node(c, l, p, ky, r)) && Linked(h, Node(c, l, p, ky, r), lo, hi)
    requires Case5RightDone(h, h', p, r.id)
    ensures Linked(h', Case5Right(l, p, ky, r), lo, hi)
    ensures SameOutside(h, h', {p, r.id})
  {
    NodeAt(h, Node(c, l, p, ky, r), lo, hi);
    NodeAt(h, r, p, hi);
    Case5RightIds(c, l, p, ky, r);
    assert SameOutside(h, h', {p, r.id});
    LinkedOutside(h, h', {p, r.id}, l, lo, p);
    LinkedOutside(h, h', {p, r.id}, r.left, p, r.id);
    LinkedOutside(h, h', {p, r.id}, r.right, r.id, hi);
  }

  // ---------------------------------------------------------------
  // Replacement of the record holding an equal key
  // ---------------------------------------------------------------

  /** Down the left data links from the root of a subtree: the walk stops
      at the subtree's first record, the one whose left thread points at
      the record before the subtree. */
  method LeftEnd(h: Heap, n: Ptr, ghost v: Tree, ghost lo: Ptr, ghost hi: Ptr) returns (m: Ptr)
    requires v.Node? && n == v.id && Linked(h, v, lo, hi)
    ensures m == LeftmostId(v)
  {
    m := n;
    ghost var u, uhi := v, hi;
    while IsLeftData(h[m].status)
      invariant u.Node? && m == u.id && Linked(h, u, lo, uhi)
      invariant LeftmostId(u) == LeftmostId(v)
      decreases u
    {
      m := h[m].left;
      u, uhi := u.left, u.id;
    }
  }

  /** Down the right data links: the subtree's last record. */
  method RightEnd(h: Heap, n: Ptr, ghost v: Tree, ghost lo: Ptr, ghost hi: Ptr) returns (m: Ptr)
    requires v.Node? && n == v.id && Linked(h, v, lo, hi)
    ensures m == RightmostId(v)
  {
    m := n;
    ghost var u, ulo := v, lo;
    while IsRightData(h[m].status)
      invariant u.Node? && m == u.id && Linked(h, u, ulo, hi)
      invariant RightmostId(u) == RightmostId(v)
      decreases u
    {
      m := h[m].right;
      u, ulo := u.right, u.id;
    }
  }

  /** x takes over the links and status of p, and the two threads that
      pointed at p (the left thread of the first record of the right
      subtree, the right thread of the last record of the left subtree)
      now point at x.  p itself is left as it was. */
  ghost predicate ReplaceDone(h: Heap, h': Heap, x: Ptr, p: Ptr, l: Tree, r: Tree)
    requires l.Node? ==> RightmostId(l) in h
    requires r.Node? ==> LeftmostId(r) in h
  {
    && x in h && p in h
    && h'.Keys == h.Keys
    && h'[x] == h[x].(left := h[p].left, right := h[p].right, status := h[p].status)
    && (r.Node? ==> h'[LeftmostId(r)] == h[LeftmostId(r)].(left := x))
    && (l.Node? ==> h'[RightmostId(l)] == h[RightmostId(l)].(right := x))
    && (forall z | z in h && z != x && !(r.Node? && z == LeftmostId(r)) && !(l.Node? && z == RightmostId(l)) ::
          h'[z] == h[z])
  }

  /** The first record of a subtree, and the last, are records of the heap
      and stay clear of everything outside the subtree. */
  lemma EndsIn(h: Heap, t: Tree, lo: Ptr, hi: Ptr)
    requires t.Node? && Linked(h, t, lo, hi)
    ensures LeftmostId(t) in h && RightmostId(t) in h
  {
    LinkedIds(h, t, lo, hi);
  }

  /** The two thread-holding records are distinct from each other, from p
      and from x. */
  lemma ReplaceIds(c: Color, l: Tree, p: Ptr, ky: int, r: Tree, x: Ptr)
    requires UniqueIds(Node(c, l, p, ky, r)) && x !in IdSet(Node(c, l, p, ky, r))
    ensures x != p
    ensures l.Node? ==> RightmostId(l) != x && RightmostId(l) != p
    ensures r.Node? ==> LeftmostId(r) != x && LeftmostId(r) != p
    ensures l.Node? && r.Node? ==> RightmostId(l) != LeftmostId(r)
    ensures l.Node? && r.Node? ==> LeftmostId(r) !in IdSet(l)
  {
  }

  method ReplaceWrites(mem: Memory, x: Ptr, p: Ptr, ghost c: Color, ghost l: Tree, ghost ky: int, ghost r: Tree, ghost lo: Ptr, ghost hi: Ptr)
    requires UniqueIds(Node(c, l, p, ky, r)) && Linked(mem.nodes, Node(c, l, p, ky, r), lo, hi)
    requires x in mem.nodes && x !in IdSet(Node(c, l, p, ky, r))
    modifies mem
    ensures l.Node? ==> RightmostId(l) in old(mem.nodes)
    ensures r.Node? ==> LeftmostId(r) in old(mem.nodes)
    ensures ReplaceDone(old(mem.nodes), mem.nodes, x, p, l, r)
    ensures mem.freed == old(mem.freed)
  {
    var h0: Heap := mem.nodes;
    NodeAt(h0, Node(c, l, p, ky, r), lo, hi);
    ReplaceIds(c, l, p, ky, r, x);
    if l.Node? { EndsIn(h0, l, lo, p); }
    if r.Node? { EndsIn(h0, r, p, hi); }
    var h := h0[x := h0[x].(left := h0[p].left, right := h0[p].right, status := h0[p].status)];
    // x lies outside both subtrees, so the walks read the same records in
    // h0 as in h.
    var n := p;
    if IsRightData(h[n].status) {
      n := RightChildEnd(h0, p, c, l, ky, r, lo, hi);
      h := h[n := h[n].(left := x)];
    }
    n := p;
    if IsLeftData(h[n].status) {
      n := LeftChildEnd(h0, p, c, l, ky, r, lo, hi);
      h := h[n := h[n].(right := x)];
    }
    mem.nodes := h;
  }

  /** The first record of p's right subtree. */
  method RightChildEnd(h: Heap, p: Ptr, ghost c: Color, ghost l: Tree, ghost ky: int, ghost r: Tree, ghost lo: Ptr, ghost hi: Ptr)
    returns (n: Ptr)
    requires Linked(h, Node(c, l, p, ky, r), lo, hi) && r.Node?
    ensures n == LeftmostId(r)
  {
    n := LeftEnd(h, h[p].right, r, p, hi);
  }

  /** The last record of p's left subtree. */
  method LeftChildEnd(h: Heap, p: Ptr, ghost c: Color, ghost l: Tree, ghost ky: int, ghost r: Tree, ghost lo: Ptr, ghost hi: Ptr)
    returns (n: Ptr)
    requires Linked(h, Node(c, l, p, ky, r), lo, hi) && l.Node?
    ensures n == RightmostId(l)
  {
    n := RightEnd(h, h[p].left, l, lo, p);
  }

  lemma ReplaceLinked(h: Heap, h': Heap, c: Color, l: Tree, p: Ptr, ky: int, r: Tree, lo: Ptr, hi: Ptr, x: Ptr)
    requires UniqueIds(Node(c, l, p, ky, r)) && Linked(h, Node(c, l, p, ky, r), lo, hi)
    requires x != NULL && x !in IdSet(Node(c, l, p, ky, r))
    requires l.Node? ==> RightmostId(l) in h
    requires r.Node? ==> LeftmostId(r) in h
    requires ReplaceDone(h, h', x, p, l, r)
    ensures Linked(h', Node(c, l, x, h[x].key, r), lo, hi)
    ensures SameOutside(h, h', IdSet(l) + IdSet(r) + {x})
    ensures h'[p] == h[p]
  {
    NodeAt(h, Node(c, l, p, ky, r), lo, hi);
    ReplaceIds(c, l, p, ky, r, x);
    if l.Node? {
      LinkedIds(h, l, lo, p);
      forall z | z in IdSet(l) && z != RightmostId(l)
        ensures z in h' && z in h && h'[z] == h[z]
      {
        assert r.Node? ==> z != LeftmostId(r);
      }
      ReboundHi(h, h', l, lo, p, x);
    }
    if r.Node? {
      LinkedIds(h, r, p, hi);
      forall z | z in IdSet(r) && z != LeftmostId(r)
        ensures z in h' && z in h && h'[z] == h[z]
      {
        assert l.Node? ==> z != RightmostId(l);
      }
      ReboundLo(h, h', r, p, hi, x);
    }
    LinkedNode(h', c, l, x, h[x].key, r, lo, hi);
  }

  // ---------------------------------------------------------------
  // After the recursive call into the left subtree
  // ---------------------------------------------------------------

  /** Cases 4 and 5 on the left side: the new left child l of p is red with a
      red child and the right child is not red. */
  method RotateLeftCases(mem: Memory, a: InsAction, p: Ptr, ghost c: Color, ghost l: Tree, ghost ky: int, ghost r: Tree, ghost lo: Ptr, ghost hi: Ptr)
    returns (q: Ptr)
    requires (a == ARedLeftRed || a == ARedRightRed) && Shape(a, l) && !IsRedNode(r)
    requires UniqueIds(Node(c, l, p, ky, r)) && Linked(mem.nodes, Node(c, l, p, ky, r), lo, hi)
    modifies mem
    ensures q == RootPtr(FixLeft(a, c, l, p, ky, r).1)
    ensures Linked(mem.nodes, FixLeft(a, c, l, p, ky, r).1, lo, hi)
    ensures SameOutside(old(mem.nodes), mem.nodes, IdSet(Node(c, l, p, ky, r)))
    ensures mem.freed == old(mem.freed)
  {
    ghost var h: Heap := mem.nodes;
    NodeAt(h, Node(c, l, p, ky, r), lo, hi);
    NodeAt(h, l, lo, p);
    ghost var l2 := l;
    if a == ARedRightRed {
      NodeAt(h, l.right, l.id, p);
      RotateLeftIds(c, l, p, ky, r);
      ghost var _, _ := RotateLeftWrites(mem, p);
      RotateLeftLinked(h, mem.nodes, c, l, p, ky, r, lo, hi);
      l2 := RotateLeft(l);
    }
    ghost var h1: Heap := mem.nodes;
    NodeAt(h1, Node(c, l2, p, ky, r), lo, hi);
    NodeAt(h1, l2, lo, p);
    q := Case5LeftWrites(mem, p);
    Case5LeftLinked(h1, mem.nodes, c, l2, p, ky, r, lo, hi);
    SameOutsideTrans(h, h1, mem.nodes, IdSet(Node(c, l, p, ky, r)), {p, l2.id}, IdSet(Node(c, l, p, ky, r)));
  }

  /** The switch on the action and case 3 on the left side. */
  method FixLeftHeap(mem: Memory, a: InsAction, p: Ptr, ghost c: Color, ghost l: Tree, ghost ky: int, ghost r: Tree, ghost lo: Ptr, ghost hi: Ptr)
    returns (action: InsAction, q: Ptr)
    requires Shape(a, l) && UniqueIds(Node(c, l, p, ky, r)) && Linked(mem.nodes, Node(c, l, p, ky, r), lo, hi)
    modifies mem
    ensures action == FixLeft(a, c, l, p, ky, r).0 && q == RootPtr(FixLeft(a, c, l, p, ky, r).1)
    ensures Linked(mem.nodes, FixLeft(a, c, l, p, ky, r).1, lo, hi)
    ensures SameOutside(old(mem.nodes), mem.nodes, IdSet(Node(c, l, p, ky, r)))
    ensures mem.freed == old(mem.freed)
  {
    ghost var h: Heap := mem.nodes;
    NodeAt(h, Node(c, l, p, ky, r), lo, hi);
    if a == ADuplicate || a == ABlack {
      return a, p;
    }
    if a == ARed {
      return (if IsRed(mem.nodes[p].status) then ARedLeftRed else ABlack), p;
    }
    if r.Node? {
      NodeAt(h, r, p, hi);
    }
    if IsRightData(mem.nodes[p].status) && IsRed(mem.nodes[mem.nodes[p].right].status) {
      NodeAt(h, l, lo, p);
      RecolourWrites(mem, p);
      RecolourLinked(h, mem.nodes, c, l, p, ky, r, lo, hi);
      return ARed, p;
    }
    q := RotateLeftCases(mem, a, p, c, l, ky, r, lo, hi);
    action := ABlack;
  }

  // ---------------------------------------------------------------
  // After the recursive call into the right subtree
  // ---------------------------------------------------------------

  /** Cases 4 and 5 on the right side: the new right child r of p is red with a
      red child and the left child is not red. */
  method RotateRightCases(mem: Memory, a: InsAction, p: Ptr, ghost c: Color, ghost l: Tree, ghost ky: int, ghost r: Tree, ghost lo: Ptr, ghost hi: Ptr)
    returns (q: Ptr)
    requires (a == ARedLeftRed || a == ARedRightRed) && Shape(a, r) && !IsRedNode(l)
    requires UniqueIds(Node(c, l, p, ky, r)) && Linked(mem.nodes, Node(c, l, p, ky, r), lo, hi)
    modifies mem
    ensures q == RootPtr(FixRight(a, c, l, p, ky, r).1)
    ensures Linked(mem.nodes, FixRight(a, c, l, p, ky, r).1, lo, hi)
    ensures SameOutside(old(mem.nodes), mem.nodes, IdSet(Node(c, l, p, ky, r)))
    ensures mem.freed == old(mem.freed)
  {
    ghost var h: Heap := mem.nodes;
    NodeAt(h, Node(c, l, p, ky, r), lo, hi);
    NodeAt(h, r, p, hi);
    ghost var r2 := r;
    if a == ARedLeftRed {
      NodeAt(h, r.left, p, r.id);
      RotateRightIds(c, l, p, ky, r);
      ghost var _, _ := RotateRightWrites(mem, p);
      RotateRightLinked(h, mem.nodes, c, l, p, ky, r, lo, hi);
      r2 := RotateRight(r);
    }
    ghost var h1: Heap := mem.nodes;
    NodeAt(h1, Node(c, l, p, ky, r2), lo, hi);
    NodeAt(h1, r2, p, hi);
    q := Case5RightWrites(mem, p);
    Case5RightLinked(h1, mem.nodes, c, l, p, ky, r2, lo, hi);
    SameOutsideTrans(h, h1, mem.nodes, IdSet(Node(c, l, p, ky, r)), {p, r2.id}, IdSet(Node(c, l, p, ky, r)));
  }

  /** The switch on the action and case 3 on the right side. */
  method FixRightHeap(mem: Memory, a: InsAction, p: Ptr, ghost c: Color, ghost l: Tree, ghost ky: int, ghost r: Tree, ghost lo: Ptr, ghost hi: Ptr)
    returns (action: InsAction, q: Ptr)
    requires Shape(a, r) && UniqueIds(Node(c, l, p, ky, r)) && Linked(mem.nodes, Node(c, l, p, ky, r), lo, hi)
    modifies mem
    ensures action == FixRight(a, c, l, p, ky, r).0 && q == RootPtr(FixRight(a, c, l, p, ky, r).1)
    ensures Linked(mem.nodes, FixRight(a, c, l, p, ky, r).1, lo, hi)
    ensures SameOutside(old(mem.nodes), mem.nodes, IdSet(Node(c, l, p, ky, r)))
    ensures mem.freed == old(mem.freed)
  {
    ghost var h: Heap := mem.nodes;
    NodeAt(h, Node(c, l, p, ky, r), lo, hi);
    if a == ADuplicate || a == ABlack {
      return a, p;
    }
    if a == ARed {
      return (if IsRed(mem.nodes[p].status) then ARedRightRed else ABlack), p;
    }
    if l.Node? {
      NodeAt(h, l, lo, p);
    }
    if IsLeftData(mem.nodes[p].status) && IsRed(mem.nodes[mem.nodes[p].left].status) {
      NodeAt(h, r, p, hi);
      RecolourWrites(mem, p);
      RecolourLinked(h, mem.nodes, c, l, p, ky, r, lo, hi);
      return ARed, p;
    }
    q := RotateRightCases(mem, a, p, c, l, ky, r, lo, hi);
    action := ABlack;
  }

  // ---------------------------------------------------------------
  // insert_node into the left subtree
  // ---------------------------------------------------------------

  /** The new left subtree d of p keeps p's subtree free of repeated
      records, and holds only records of the old one or x. */
  lemma ChildLeftIds(c: Color, l: Tree, p: Ptr, ky: int, r: Tree, d: Tree, x: Ptr)
    requires UniqueIds(Node(c, l, p, ky, r)) && x !in IdSet(Node(c, l, p, ky, r))
    requires UniqueIds(d) && IdSet(d) <= IdSet(l) + {x}
    ensures UniqueIds(Node(c, d, p, ky, r))
    ensures IdSet(Node(c, d, p, ky, r)) <= IdSet(Node(c, l, p, ky, r)) + {x}
  {
  }

  /** The left slot of p, a data link, was rewritten to the root of the new
      left subtree d that the recursive call linked between the same
      neighbours. */
  lemma AttachLeft(h0: Heap, h1: Heap, h2: Heap, c: Color, l: Tree, d: Tree, p: Ptr, ky: int, r: Tree, lo: Ptr, hi: Ptr, x: Ptr)
    requires UniqueIds(Node(c, l, p, ky, r)) && Linked(h0, Node(c, l, p, ky, r), lo, hi) && l.Node?
    requires x !in IdSet(Node(c, l, p, ky, r))
    requires d.Node? && Linked(h1, d, lo, p) && UniqueIds(d) && IdSet(d) <= IdSet(l) + {x}
    requires SameOutside(h0, h1, IdSet(l) + {x})
    requires p in h1 && h2 == h1[p := h1[p].(left := d.id)]
    ensures Linked(h2, Node(c, d, p, ky, r), lo, hi)
    ensures SameOutside(h0, h2, IdSet(Node(c, l, p, ky, r)) + {x})
  {
    NodeAt(h0, Node(c, l, p, ky, r), lo, hi);
    assert SameOutside(h1, h2, {p});
    LinkedOutside(h1, h2, {p}, d, lo, p);
    ChildLeftIds(c, l, p, ky, r, d, x);
    SameOutsideTrans(h0, h1, h2, IdSet(l) + {x}, {p}, IdSet(l) + {x, p});
    LinkedOutside(h0, h2, IdSet(l) + {x, p}, r, p, hi);
    LinkedNode(h2, c, d, p, ky, r, lo, hi);
  }

  /** The left slot of p was a thread: x, inserted there as a leaf, takes
      the thread over and gets a thread back to p. */
  lemma LeafAttachLeft(h0: Heap, h2: Heap, c: Color, l: Tree, p: Ptr, ky: int, r: Tree, lo: Ptr, hi: Ptr, x: Ptr, k: int)
    requires l.Nil? && UniqueIds(Node(c, l, p, ky, r)) && Linked(h0, Node(c, l, p, ky, r), lo, hi)
    requires x != NULL && x in h0 && x !in IdSet(Node(c, l, p, ky, r))
    requires h2.Keys == h0.Keys && h0[x].key == k
    requires h2[x] == NodeRec(lo, p, StatusOf(true, false, false), k)
    requires h2[p] == h0[p].(left := x, status := StatusOf(c == Red, true, r.Node?))
    requires forall z | z in h0 && z != x && z != p :: h2[z] == h0[z]
    ensures Linked(h2, Node(c, Node(Red, Nil, x, k, Nil), p, ky, r), lo, hi)
    ensures SameOutside(h0, h2, {p, x}) && SameOutside(h0, h2, IdSet(Node(c, l, p, ky, r)) + {x})
  {
    NodeAt(h0, Node(c, l, p, ky, r), lo, hi);
    assert SameOutside(h0, h2, {p, x});
    LinkedOutside(h0, h2, {p, x}, r, p, hi);
    LinkedNode(h2, Red, Nil, x, k, Nil, lo, p);
  }

  /** One step of Ins below p's left slot. */
  lemma InsLeftStep(c: Color, l: Tree, p: Ptr, ky: int, r: Tree, x: Ptr, k: int)
    requires Cmp(ky, k) > 0
    ensures Ins(Node(c, l, p, ky, r), x, k) == InsRes(FixLeft(Ins(l, x, k).action, c, Ins(l, x, k).tree, p, ky, r).0, FixLeft(Ins(l, x, k).action, c, Ins(l, x, k).tree, p, ky, r).1, Ins(l, x, k).replaced)
  {
  }

  /** The left slot of p is a thread: it is cleared, the call on the
      empty slot makes x a leaf, the slot is set to x, and x takes over the
      thread and gets one back to p. */
  method ThreadLeft(mem: Memory, x: Ptr, p: Ptr, ghost c: Color, ghost l: Tree, ghost ky: int, ghost r: Tree, ghost lo: Ptr, ghost hi: Ptr, ghost k: int)
    returns (a: InsAction, replaced: Ptr)
    requires l.Nil? && x != NULL && x in mem.nodes && mem.nodes[x].key == k && x !in IdSet(Node(c, l, p, ky, r))
    requires UniqueIds(Node(c, l, p, ky, r)) && Linked(mem.nodes, Node(c, l, p, ky, r), lo, hi)
    modifies mem
    ensures a == ARed && replaced == NULL
    ensures a == Ins(l, x, k).action && replaced == Ins(l, x, k).replaced
    ensures Linked(mem.nodes, Node(c, Node(Red, Nil, x, k, Nil), p, ky, r), lo, hi) && Linked(mem.nodes, Node(c, Ins(l, x, k).tree, p, ky, r), lo, hi)
    ensures SameOutside(old(mem.nodes), mem.nodes, IdSet(Node(c, l, p, ky, r)) + {x})
    ensures mem.freed == old(mem.freed)
    decreases Node(c, l, p, ky, r), 0
  {
    ghost var h0: Heap := mem.nodes;
    NodeAt(h0, Node(c, l, p, ky, r), lo, hi);
    var cc := mem.nodes[p].left;
    mem.nodes := mem.nodes[p := mem.nodes[p].(left := NULL)];
    var q1;
    a, q1, replaced := InsertNode(mem, x, mem.nodes[p].left, Nil, NULL, NULL, k);
    mem.nodes := mem.nodes[p := mem.nodes[p].(left := q1)];
    if mem.nodes[p].left != NULL {
      var h: Heap := mem.nodes;
      var n := h[p].left;
      h := h[n := h[n].(left := cc)];
      h := h[n := h[n].(right := p)];
      h := h[p := h[p].(status := WithLeftData(h[p].status))];
      mem.nodes := h;
    } else {
      // The call on an empty slot always fills it with x.
      assert false;
    }
    StatusDecode(h0[p].status);
    LeafAttachLeft(h0, mem.nodes, c, l, p, ky, r, lo, hi, x, k);
  }

  /** The left slot of p is a data link: insert into that subtree and
      store the root of the result in the slot. */
  method DataLeft(mem: Memory, x: Ptr, p: Ptr, ghost c: Color, ghost l: Tree, ghost ky: int, ghost r: Tree, ghost lo: Ptr, ghost hi: Ptr, ghost k: int)
    returns (a: InsAction, replaced: Ptr)
    requires l.Node? && x != NULL && x in mem.nodes && mem.nodes[x].key == k && x !in IdSet(Node(c, l, p, ky, r))
    requires UniqueIds(Node(c, l, p, ky, r)) && Linked(mem.nodes, Node(c, l, p, ky, r), lo, hi)
    modifies mem
    ensures a == Ins(l, x, k).action && replaced == Ins(l, x, k).replaced
    ensures Linked(mem.nodes, Node(c, Ins(l, x, k).tree, p, ky, r), lo, hi)
    ensures SameOutside(old(mem.nodes), mem.nodes, IdSet(Node(c, l, p, ky, r)) + {x})
    ensures mem.freed == old(mem.freed)
    decreases Node(c, l, p, ky, r), 0
  {
    ghost var h0: Heap := mem.nodes;
    NodeAt(h0, Node(c, l, p, ky, r), lo, hi);
    var q1;
    a, q1, replaced := InsertNode(mem, x, mem.nodes[p].left, l, lo, p, k);
    ghost var h1: Heap := mem.nodes;
    mem.nodes := mem.nodes[p := mem.nodes[p].(left := q1)];
    InsIds(l, x, k);
    AttachLeft(h0, h1, mem.nodes, c, l, Ins(l, x, k).tree, p, ky, r, lo, hi, x);
  }

  /** The step of insert_node for a key that sorts before p's: insert into
      the left subtree, store the new subtree root in the left slot of p, then
      rebalance. */
  method InsertLeft(mem: Memory, x: Ptr, p: Ptr, ghost c: Color, ghost l: Tree, ghost ky: int, ghost r: Tree, ghost lo: Ptr, ghost hi: Ptr, ghost k: int)
    returns (action: InsAction, q: Ptr, replaced: Ptr)
    requires x != NULL && x in mem.nodes && mem.nodes[x].key == k && x !in IdSet(Node(c, l, p, ky, r))
    requires UniqueIds(Node(c, l, p, ky, r)) && Linked(mem.nodes, Node(c, l, p, ky, r), lo, hi)
    requires Cmp(ky, k) > 0
    modifies mem
    ensures action == Ins(Node(c, l, p, ky, r), x, k).action && replaced == Ins(Node(c, l, p, ky, r), x, k).replaced
    ensures q == RootPtr(Ins(Node(c, l, p, ky, r), x, k).tree)
    ensures Linked(mem.nodes, Ins(Node(c, l, p, ky, r), x, k).tree, lo, hi)
    ensures SameOutside(old(mem.nodes), mem.nodes, IdSet(Node(c, l, p, ky, r)) + {x})
    ensures mem.freed == old(mem.freed)
    decreases Node(c, l, p, ky, r), 1
  {
    ghost var h0: Heap := mem.nodes;
    NodeAt(h0, Node(c, l, p, ky, r), lo, hi);
    InsLeftStep(c, l, p, ky, r, x, k);
    var a: InsAction;
    if IsLeftThrd(mem.nodes[p].status) {
      a, replaced := ThreadLeft(mem, x, p, c, l, ky, r, lo, hi, k);
    } else {
      a, replaced := DataLeft(mem, x, p, c, l, ky, r, lo, hi, k);
    }
    InsIds(l, x, k);
    ChildLeftIds(c, l, p, ky, r, Ins(l, x, k).tree, x);
    ghost var h2: Heap := mem.nodes;
    action, q := FixLeftHeap(mem, a, p, c, Ins(l, x, k).tree, ky, r, lo, hi);
    SameOutsideTrans(h0, h2, mem.nodes, IdSet(Node(c, l, p, ky, r)) + {x}, IdSet(Node(c, Ins(l, x, k).tree, p, ky, r)), IdSet(Node(c, l, p, ky, r)) + {x});
  }

  // ---------------------------------------------------------------
  // insert_node into the right subtree
  // ---------------------------------------------------------------

  /** The new right subtree d of p keeps p's subtree free of repeated
      records, and holds only records of the old one or x. */
  lemma ChildRightIds(c: Color, l: Tree, p: Ptr, ky: int, r: Tree, d: Tree, x: Ptr)
    requires UniqueIds(Node(c, l, p, ky, r)) && x !in IdSet(Node(c, l, p, ky, r))
    requires UniqueIds(d) && IdSet(d) <= IdSet(r) + {x}
    ensures UniqueIds(Node(c, l, p, ky, d))
    ensures IdSet(Node(c, l, p, ky, d)) <= IdSet(Node(c, l, p, ky, r)) + {x}
  {
  }

  /** The right slot of p, a data link, was rewritten to the root of the new
      right subtree d that the recursive call linked between the same
      neighbours. */
  lemma AttachRight(h0: Heap, h1: Heap, h2: Heap, c: Color, l: Tree, d: Tree, p: Ptr, ky: int, r: Tree, lo: Ptr, hi: Ptr, x: Ptr)
    requires UniqueIds(Node(c, l, p, ky, r)) && Linked(h0, Node(c, l, p, ky, r), lo, hi) && r.Node?
    requires x !in IdSet(Node(c, l, p, ky, r))
    requires d.Node? && Linked(h1, d, p, hi) && UniqueIds(d) && IdSet(d) <= IdSet(r) + {x}
    requires SameOutside(h0, h1, IdSet(r) + {x})
    requires p in h1 && h2 == h1[p := h1[p].(right := d.id)]
    ensures Linked(h2, Node(c, l, p, ky, d), lo, hi)
    ensures SameOutside(h0, h2, IdSet(Node(c, l, p, ky, r)) + {x})
  {
    NodeAt(h0, Node(c, l, p, ky, r), lo, hi);
    assert SameOutside(h1, h2, {p});
    LinkedOutside(h1, h2, {p}, d, p, hi);
    ChildRightIds(c, l, p, ky, r, d, x);
    SameOutsideTrans(h0, h1, h2, IdSet(r) + {x}, {p}, IdSet(r) + {x, p});
    LinkedOutside(h0, h2, IdSet(r) + {x, p}, l, lo, p);
    LinkedNode(h2, c, l, p, ky, d, lo, hi);
  }

  /** The right slot of p was a thread: x, inserted there as a leaf, takes
      the thread over and gets a thread back to p. */
  lemma LeafAttachRight(h0: Heap, h2: Heap, c: Color, l: Tree, p: Ptr, ky: int, r: Tree, lo: Ptr, hi: Ptr, x: Ptr, k: int)
    requires r.Nil? && UniqueIds(Node(c, l, p, ky, r)) && Linked(h0, Node(c, l, p, ky, r), lo, hi)
    requires x != NULL && x in h0 && x !in IdSet(Node(c, l, p, ky, r))
    requires h2.Keys == h0.Keys && h0[x].key == k
    requires h2[x] == NodeRec(p, hi, StatusOf(true, false, false), k)
    requires h2[p] == h0[p].(right := x, status := StatusOf(c == Red, l.Node?, true))
    requires forall z | z in h0 && z != x && z != p :: h2[z] == h0[z]
    ensures Linked(h2, Node(c, l, p, ky, Node(Red, Nil, x, k, Nil)), lo, hi)
    ensures SameOutside(h0, h2, {p, x}) && SameOutside(h0, h2, IdSet(Node(c, l, p, ky, r)) + {x})
  {
    NodeAt(h0, Node(c, l, p, ky, r), lo, hi);
    assert SameOutside(h0, h2, {p, x});
    LinkedOutside(h0, h2, {p, x}, l, lo, p);
    LinkedNode(h2, Red, Nil, x, k, Nil, p, hi);
  }

  /** One step of Ins below p's right slot. */
  lemma InsRightStep(c: Color, l: Tree, p: Ptr, ky: int, r: Tree, x: Ptr, k: int)
    requires Cmp(ky, k) < 0
    ensures Ins(Node(c, l, p, ky, r), x, k) == InsRes(FixRight(Ins(r, x, k).action, c, l, p, ky, Ins(r, x, k).tree).0, FixRight(Ins(r, x, k).action, c, l, p, ky, Ins(r, x, k).tree).1, Ins(r, x, k).replaced)
  {
  }

  /** The right slot of p is a thread: it is cleared, the call on the
      empty slot makes x a leaf, the slot is set to x, and x takes over the
      thread and gets one back to p. */
  method ThreadRight(mem: Memory, x: Ptr, p: Ptr, ghost c: Color, ghost l: Tree, ghost ky: int, ghost r: Tree, ghost lo: Ptr, ghost hi: Ptr, ghost k: int)
    returns (a: InsAction, replaced: Ptr)
    requires r.Nil? && x != NULL && x in mem.nodes && mem.nodes[x].key == k && x !in IdSet(Node(c, l, p, ky, r))
    requires UniqueIds(Node(c, l, p, ky, r)) && Linked(mem.nodes, Node(c, l, p, ky, r), lo, hi)
    modifies mem
    ensures a == ARed && replaced == NULL
    ensures a == Ins(r, x, k).action && replaced == Ins(r, x, k).replaced
    ensures Linked(mem.nodes, Node(c, l, p, ky, Node(Red, Nil, x, k, Nil)), lo, hi) && Linked(mem.nodes, Node(c, l, p, ky, Ins(r, x, k).tree), lo, hi)
    ensures SameOutside(old(mem.nodes), mem.nodes, IdSet(Node(c, l, p, ky, r)) + {x})
    ensures mem.freed == old(mem.freed)
    decreases Node(c, l, p, ky, r), 0
  {
    ghost var h0: Heap := mem.nodes;
    NodeAt(h0, Node(c, l, p, ky, r), lo, hi);
    var cc := mem.nodes[p].right;
    mem.nodes := mem.nodes[p := mem.nodes[p].(right := NULL)];
    var q1;
    a, q1, replaced := InsertNode(mem, x, mem.nodes[p].right, Nil, NULL, NULL, k);
    mem.nodes := mem.nodes[p := mem.nodes[p].(right := q1)];
    if mem.nodes[p].right != NULL {
      var h: Heap := mem.nodes;
      var n := h[p].right;
      h := h[n := h[n].(right := cc)];
      h := h[n := h[n].(left := p)];
      h := h[p := h[p].(status := WithRightData(h[p].status))];
      mem.nodes := h;
    } else {
      // The call on an empty slot always fills it with x.
      assert false;
    }
    StatusDecode(h0[p].status);
    LeafAttachRight(h0, mem.nodes, c, l, p, ky, r, lo, hi, x, k);
  }

  /** The right slot of p is a data link: insert into that subtree and
      store the root of the result in the slot. */
  method DataRight(mem: Memory, x: Ptr, p: Ptr, ghost c: Color, ghost l: Tree, ghost ky: int, ghost r: Tree, ghost lo: Ptr, ghost hi: Ptr, ghost k: int)
    returns (a: InsAction, replaced: Ptr)
    requires r.Node? && x != NULL && x in mem.nodes && mem.nodes[x].key == k && x !in IdSet(Node(c, l, p, ky, r))
    requires UniqueIds(Node(c, l, p, ky, r)) && Linked(mem.nodes, Node(c, l, p, ky, r), lo, hi)
    modifies mem
    ensures a == Ins(r, x, k).action && replaced == Ins(r, x, k).replaced
    ensures Linked(mem.nodes, Node(c, l, p, ky, Ins(r, x, k).tree), lo, hi)
    ensures SameOutside(old(mem.nodes), mem.nodes, IdSet(Node(c, l, p, ky, r)) + {x})
    ensures mem.freed == old(mem.freed)
    decreases Node(c, l, p, ky, r), 0
  {
    ghost var h0: Heap := mem.nodes;
    NodeAt(h0, Node(c, l, p, ky, r), lo, hi);
    var q1;
    a, q1, replaced := InsertNode(mem, x, mem.nodes[p].right, r, p, hi, k);
    ghost var h1: Heap := mem.nodes;
    mem.nodes := mem.nodes[p := mem.nodes[p].(right := q1)];
    InsIds(r, x, k);
    AttachRight(h0, h1, mem.nodes, c, l, Ins(r, x, k).tree, p, ky, r, lo, hi, x);
  }

  /** The step of insert_node for a key that sorts after p's: insert into
      the right subtree, store the new subtree root in the right slot of p, then
      rebalance. */
  method InsertRight(mem: Memory, x: Ptr, p: Ptr, ghost c: Color, ghost l: Tree, ghost ky: int, ghost r: Tree, ghost lo: Ptr, ghost hi: Ptr, ghost k: int)
    returns (action: InsAction, q: Ptr, replaced: Ptr)
    requires x != NULL && x in mem.nodes && mem.nodes[x].key == k && x !in IdSet(Node(c, l, p, ky, r))
    requires UniqueIds(Node(c, l, p, ky, r)) && Linked(mem.nodes, Node(c, l, p, ky, r), lo, hi)
    requires Cmp(ky, k) < 0
    modifies mem
    ensures action == Ins(Node(c, l, p, ky, r), x, k).action && replaced == Ins(Node(c, l, p, ky, r), x, k).replaced
    ensures q == RootPtr(Ins(Node(c, l, p, ky, r), x, k).tree)
    ensures Linked(mem.nodes, Ins(Node(c, l, p, ky, r), x, k).tree, lo, hi)
    ensures SameOutside(old(mem.nodes), mem.nodes, IdSet(Node(c, l, p, ky, r)) + {x})
    ensures mem.freed == old(mem.freed)
    decreases Node(c, l, p, ky, r), 1
  {
    ghost var h0: Heap := mem.nodes;
    NodeAt(h0, Node(c, l, p, ky, r), lo, hi);
    InsRightStep(c, l, p, ky, r, x, k);
    var a: InsAction;
    if IsRightThrd(mem.nodes[p].status) {
      a, replaced := ThreadRight(mem, x, p, c, l, ky, r, lo, hi, k);
    } else {
      a, replaced := DataRight(mem, x, p, c, l, ky, r, lo, hi, k);
    }
    InsIds(r, x, k);
    ChildRightIds(c, l, p, ky, r, Ins(r, x, k).tree, x);
    ghost var h2: Heap := mem.nodes;
    action, q := FixRightHeap(mem, a, p, c, l, ky, Ins(r, x, k).tree, lo, hi);
    SameOutsideTrans(h0, h2, mem.nodes, IdSet(Node(c, l, p, ky, r)) + {x}, IdSet(Node(c, l, p, ky, Ins(r, x, k).tree)), IdSet(Node(c, l, p, ky, r)) + {x});
  }

  // ---------------------------------------------------------------
  // insert_node
  // ---------------------------------------------------------------

  /** insert_node on the subtree t rooted at p, for record x holding key k:
      the records come to spell out Ins(t, x, k).  A new leaf has NULL
      threads; the caller that owns the slot repoints them. */
  method InsertNode(mem: Memory, x: Ptr, p: Ptr, ghost t: Tree, ghost lo: Ptr, ghost hi: Ptr, ghost k: int)
    returns (action: InsAction, q: Ptr, replaced: Ptr)
    requires x != NULL && x in mem.nodes && mem.nodes[x].key == k && x !in IdSet(t)
    requires p == RootPtr(t) && UniqueIds(t) && Linked(mem.nodes, t, lo, hi)
    modifies mem
    ensures action == Ins(t, x, k).action && replaced == Ins(t, x, k).replaced
    ensures q == RootPtr(Ins(t, x, k).tree)
    ensures Linked(mem.nodes, Ins(t, x, k).tree, if t.Nil? then NULL else lo, if t.Nil? then NULL else hi)
    ensures SameOutside(old(mem.nodes), mem.nodes, IdSet(t) + {x})
    ensures mem.freed == old(mem.freed)
    decreases t, 2
  {
    if p == NULL {
      var h: Heap := mem.nodes;
      h := h[x := h[x].(left := NULL, right := NULL, status := 0)];
      h := h[x := h[x].(status := WithRed(h[x].status))];
      mem.nodes := h;
      return ARed, x, NULL;
    }
    NodeAt(mem.nodes, t, lo, hi);
    var rc := Cmp(mem.nodes[p].key, mem.nodes[x].key);
    if rc == 0 {
      ghost var h0: Heap := mem.nodes;
      ReplaceWrites(mem, x, p, t.color, t.left, t.key, t.right, lo, hi);
      ReplaceLinked(h0, mem.nodes, t.color, t.left, p, t.key, t.right, lo, hi, x);
      return ADuplicate, x, p;
    } else if rc > 0 {
      action, q, replaced := InsertLeft(mem, x, p, t.color, t.left, t.key, t.right, lo, hi, k);
    } else {
      action, q, replaced := InsertRight(mem, x, p, t.color, t.left, t.key, t.right, lo, hi, k);
    }
  }

  // ---------------------------------------------------------------
  // rbt_insert_keep and rbt_insert
  // ---------------------------------------------------------------

  /** set_black on the root record turns the linked tree into Blacken(t). */
  lemma BlackenLinked(h: Heap, h': Heap, t: Tree, lo: Ptr, hi: Ptr)
    requires t.Node? && UniqueIds(t) && Linked(h, t, lo, hi)
    requires h' == h[t.id := h[t.id].(status := WithBlack(h[t.id].status))]
    ensures Linked(h', Blacken(t), lo, hi)
    ensures SameOutside(h, h', {t.id})
  {
    NodeAt(h, t, lo, hi);
    assert SameOutside(h, h', {t.id});
    LinkedOutside(h, h', {t.id}, t.left, lo, t.id);
    LinkedOutside(h, h', {t.id}, t.right, t.id, hi);
    LinkedNode(h', Black, t.left, t.id, t.key, t.right, lo, hi);
  }

  /** insert_node from the root slot, then set_black on a red root (the
      root record, and which record is the root, are what rbt->root
      names): the records spell out InsertTree. */
  method InsertRoot(mem: Memory, root: Ptr, node: Ptr, ghost t: Tree) returns (action: InsAction, replaced: Ptr, q: Ptr)
    requires RB(t) && IsBlackRooted(t) && SearchTree(t) && UniqueIds(t)
    requires root == RootPtr(t) && Linked(mem.nodes, t, NULL, NULL)
    requires node != NULL && node in mem.nodes && node !in IdSet(t)
    modifies mem
    ensures action == if old(mem.nodes[node].key) in Contents(t) then ADuplicate else ABlack
    ensures replaced == if action == ADuplicate then Contents(t)[old(mem.nodes[node].key)] else NULL
    ensures q == RootPtr(InsertTree(t, node, old(mem.nodes[node].key)))
    ensures Linked(mem.nodes, InsertTree(t, node, old(mem.nodes[node].key)), NULL, NULL)
    ensures SameOutside(old(mem.nodes), mem.nodes, IdSet(t) + {node})
    ensures mem.freed == old(mem.freed)
  {
    ghost var k := mem.nodes[node].key;
    ghost var h0: Heap := mem.nodes;
    LinkedIds(h0, t, NULL, NULL);
    InsertResult(t, node, k);
    action, q, replaced := InsertNode(mem, node, root, t, NULL, NULL, mem.nodes[node].key);
    if action == ARed {
      ghost var h1: Heap := mem.nodes;
      mem.nodes := mem.nodes[q := mem.nodes[q].(status := WithBlack(mem.nodes[q].status))];
      BlackenLinked(h1, mem.nodes, Ins(t, node, k).tree, NULL, NULL);
      SameOutsideTrans(h0, h1, mem.nodes, IdSet(t) + {node}, {q}, IdSet(t) + {node});
      action := ABlack;
    }
  }

  /** The end of rbt_insert_keep for the replaced record n: its links and
      status byte are cleared when it goes back to the caller (keep), and
      it goes to the freeNode hook otherwise.  The tree's records are not
      touched. */
  method Dispose(mem: Memory, n: Ptr, keep: bool, ghost t: Tree)
    requires n in mem.nodes && n !in IdSet(t) && Linked(mem.nodes, t, NULL, NULL)
    modifies mem
    ensures Linked(mem.nodes, t, NULL, NULL)
    ensures SameOutside(old(mem.nodes), mem.nodes, {n})
    ensures keep ==> mem.nodes[n] == old(mem.nodes[n]).(left := NULL, right := NULL, status := 0)
    ensures keep ==> mem.freed == old(mem.freed)
    ensures !keep ==> mem.nodes == old(mem.nodes) && mem.freed == old(mem.freed) + [n]
  {
    if keep {
      ghost var h: Heap := mem.nodes;
      mem.nodes := mem.nodes[n := mem.nodes[n].(left := NULL, right := NULL, status := 0)];
      assert SameOutside(h, mem.nodes, {n});
      LinkedOutside(h, mem.nodes, {n}, t, NULL, NULL);
    } else {
      mem.FreeNode(n);
    }
  }

  /** What rbt_insert_keep does to the records: insert_node from the root,
      set_black on a red root, then the replaced record, if any, is cleared
      (keep) or handed to the freeNode hook. */
  method InsertRecords(mem: Memory, root: Ptr, node: Ptr, keep: bool, ghost t: Tree) returns (action: InsAction, replaced: Ptr, q: Ptr)
    requires RB(t) && IsBlackRooted(t) && SearchTree(t) && UniqueIds(t)
    requires root == RootPtr(t) && Linked(mem.nodes, t, NULL, NULL)
    requires node != NULL && node in mem.nodes && node !in IdSet(t)
    modifies mem
    ensures action == if old(mem.nodes[node].key) in Contents(t) then ADuplicate else ABlack
    ensures replaced == if action == ADuplicate then Contents(t)[old(mem.nodes[node].key)] else NULL
    ensures q == RootPtr(InsertTree(t, node, old(mem.nodes[node].key)))
    ensures Linked(mem.nodes, InsertTree(t, node, old(mem.nodes[node].key)), NULL, NULL)
    ensures SameOutside(old(mem.nodes), mem.nodes, IdSet(t) + {node})
    ensures action == ADuplicate && keep ==>
      replaced in mem.nodes && mem.nodes[replaced].left == NULL && mem.nodes[replaced].right == NULL
      && mem.nodes[replaced].status == 0
    ensures mem.freed == old(mem.freed) + if action == ADuplicate && !keep then [replaced] else []
    ensures (replaced != NULL) == (action == ADuplicate)
  {
    ghost var k := mem.nodes[node].key;
    ghost var h0: Heap := mem.nodes;
    LinkedIds(h0, t, NULL, NULL);
    InsertResult(t, node, k);
    action, replaced, q := InsertRoot(mem, root, node, t);
    if replaced != NULL {
      ghost var h1: Heap := mem.nodes;
      Dispose(mem, replaced, keep, InsertTree(t, node, k));
      SameOutsideTrans(h0, h1, mem.nodes, IdSet(t) + {node}, {replaced}, IdSet(t) + {node});
    }
  }

  /** rbt_insert_keep for a non-NULL node, from the point where the
      out-pointer has been cleared (oldNode0 is what it holds then). */
  method InsertKeepNode(rbt: Rbt, mem: Memory, node: Ptr, keep: bool, oldNode0: Ptr) returns (rc: int, oldNode: Ptr)
    requires rbt.Valid(mem)
    requires node != NULL && node in mem.nodes && node !in IdSet(rbt.T)
    modifies rbt, mem
    ensures rbt.Valid(mem)
    ensures rbt.def == old(rbt.def) && rbt.released == old(rbt.released)
    ensures rc == RC_OK
    ensures rbt.T == InsertTree(old(rbt.T), node, old(mem.nodes[node].key))
    ensures Contents(rbt.T) == Contents(old(rbt.T))[old(mem.nodes[node].key) := node]
    ensures rbt.size == old(rbt.size) + if old(mem.nodes[node].key) in Contents(old(rbt.T)) then 0 else 1
    ensures oldNode == if keep && old(mem.nodes[node].key) in Contents(old(rbt.T))
                       then Contents(old(rbt.T))[old(mem.nodes[node].key)] else oldNode0
    ensures old(mem.nodes[node].key) in Contents(old(rbt.T)) ==>
      var n := Contents(old(rbt.T))[old(mem.nodes[node].key)];
      && (keep ==> n in mem.nodes && mem.nodes[n].left == NULL && mem.nodes[n].right == NULL && mem.nodes[n].status == 0)
      && mem.freed == old(mem.freed) + if keep then [] else [n]
    ensures old(mem.nodes[node].key) !in Contents(old(rbt.T)) ==> mem.freed == old(mem.freed)
    ensures SameOutside(old(mem.nodes), mem.nodes, IdSet(old(rbt.T)) + {node})
  {
    oldNode := oldNode0;
    ghost var t := rbt.T;
    ghost var k := mem.nodes[node].key;
    InsertValid(t, node, k);
    var action, replaced, q := InsertRecords(mem, rbt.root, node, keep, t);
    var grow := false;
    if action == ABlack {
      grow := true;
      rc := RC_OK;
    } else if action == ADuplicate {
      rc := RC_OK;
    } else {
      rc := RC_ERROR;
    }
    if replaced != NULL {
      if keep {
        oldNode := replaced;
      }
      rc := RC_OK;
    }
    rbt.root := q;
    rbt.T := InsertTree(t, node, k);
    if grow {
      rbt.size := rbt.size + 1;
    }
    InsertedValid(rbt, mem, t, node, k);
  }

  /** The handle after rbt_insert_keep satisfies the invariant. */
  lemma InsertedValid(rbt: Rbt, mem: Memory, t: Tree, x: Ptr, k: int)
    requires SearchTree(t) && RB(t) && IsBlackRooted(t) && UniqueIds(t) && x !in IdSet(t)
    requires rbt.T == InsertTree(t, x, k) && rbt.root == RootPtr(rbt.T)
    requires Linked(mem.nodes, rbt.T, NULL, NULL)
    requires rbt.size == |InOrder(t)| + if k in Contents(t) then 0 else 1
    ensures rbt.Valid(mem)
  {
    InsertValid(t, x, k);
  }

  /** rbt_insert_keep.  keep says whether the caller passed the old_node
      out-pointer and prior is what it held before the call; oldNode is
      what it holds afterwards.  A duplicate key hands the replaced record
      back cleared when keep is set, and to the freeNode hook otherwise.
      The error return after insert_node cannot happen at a black root
      (InsAtRoot), so a non-NULL node always gives RC_OK. */
  method InsertKeep(rbt: Rbt, mem: Memory, node: Ptr, keep: bool, prior: Ptr) returns (rc: int, oldNode: Ptr)
    requires rbt.Valid(mem)
    requires node != NULL ==> node in mem.nodes && node !in IdSet(rbt.T)
    modifies rbt, mem
    ensures rbt.Valid(mem)
    ensures rbt.def == old(rbt.def) && rbt.released == old(rbt.released)
    ensures node == NULL ==> rc == RC_ERROR && oldNode == prior
    ensures node == NULL ==> rbt.T == old(rbt.T) && mem.nodes == old(mem.nodes) && mem.freed == old(mem.freed)
    ensures node != NULL ==> rc == RC_OK
    ensures node != NULL ==> rbt.T == InsertTree(old(rbt.T), node, old(mem.nodes[node].key))
    ensures node != NULL ==> Contents(rbt.T) == Contents(old(rbt.T))[old(mem.nodes[node].key) := node]
    ensures node != NULL ==>
      rbt.size == old(rbt.size) + if old(mem.nodes[node].key) in Contents(old(rbt.T)) then 0 else 1
    ensures !keep ==> oldNode == prior
    ensures keep && node != NULL ==>
      oldNode == if old(mem.nodes[node].key) in Contents(old(rbt.T))
                 then Contents(old(rbt.T))[old(mem.nodes[node].key)] else NULL
    ensures node != NULL && old(mem.nodes[node].key) in Contents(old(rbt.T)) ==>
      var n := Contents(old(rbt.T))[old(mem.nodes[node].key)];
      && (keep ==> n in mem.nodes && mem.nodes[n].left == NULL && mem.nodes[n].right == NULL && mem.nodes[n].status == 0)
      && mem.freed == old(mem.freed) + if keep then [] else [n]
    ensures node != NULL && old(mem.nodes[node].key) !in Contents(old(rbt.T)) ==> mem.freed == old(mem.freed)
    ensures node != NULL ==> SameOutside(old(mem.nodes), mem.nodes, IdSet(old(rbt.T)) + {node})
  {
    if node == NULL {
      return RC_ERROR, prior;
    }
    oldNode := if keep then NULL else prior;
    rc, oldNode := InsertKeepNode(rbt, mem, node, keep, oldNode);
  }

  /** rbt_insert: rbt_insert_keep without the out-pointer, so a replaced
      record goes to the freeNode hook. */
  method Insert(rbt: Rbt, mem: Memory, node: Ptr) returns (rc: int)
    requires rbt.Valid(mem)
    requires node != NULL ==> node in mem.nodes && node !in IdSet(rbt.T)
    modifies rbt, mem
    ensures rbt.Valid(mem)
    ensures rbt.def == old(rbt.def) && rbt.released == old(rbt.released)
    ensures node == NULL ==> rc == RC_ERROR && rbt.T == old(rbt.T) && mem.nodes == old(mem.nodes) && mem.freed == old(mem.freed)
    ensures node != NULL ==> rc == RC_OK
    ensures node != NULL ==> rbt.T == InsertTree(old(rbt.T), node, old(mem.nodes[node].key))
    ensures node != NULL ==> Contents(rbt.T) == Contents(old(rbt.T))[old(mem.nodes[node].key) := node]
    ensures node != NULL ==>
      rbt.size == old(rbt.size) + if old(mem.nodes[node].key) in Contents(old(rbt.T)) then 0 else 1
    ensures node != NULL ==> SameOutside(old(mem.nodes), mem.nodes, IdSet(old(rbt.T)) + {node})
    ensures node != NULL && old(mem.nodes[node].key) in Contents(old(rbt.T)) ==>
      mem.freed == old(mem.freed) + [Contents(old(rbt.T))[old(mem.nodes[node].key)]]
    ensures node != NULL && old(mem.nodes[node].key) !in Contents(old(rbt.T)) ==> mem.freed == old(mem.freed)
  {
    var oldNode;
    rc, oldNode := InsertKeep(rbt, mem, node, false, NULL);
  }
}
