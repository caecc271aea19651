/*********************************************************************
 * How the caller's records spell out an abstract tree.
 *
 * Linked(h, t, lo, hi) says that every record of subtree t holds its
 * key, the status byte for its colour and slot kinds, a data link to
 * each child it has, and a thread where it has none.  The threads of a
 * subtree that point outside it can only point at its in-order
 * neighbours: lo before its first record and hi after its last (NULL at
 * the ends of the whole tree).  So "every thread is the in-order
 * neighbour" is part of the invariant, not a consequence to re-check.
 *********************************************************************/
module RbtLinks {
  import opened RbtInternal
  import opened RbtTree

  type Heap = map<Ptr, NodeRec>

  /** The record that a node of the tree has when its subtrees are l and r. */
  function RecordOf(c: Color, l: Tree, k: int, r: Tree, lo: Ptr, hi: Ptr): NodeRec {
    NodeRec(if l.Nil? then lo else l.id, if r.Nil? then hi else r.id, StatusOf(c == Red, l.Node?, r.Node?), k)
  }

  ghost predicate Linked(h: Heap, t: Tree, lo: Ptr, hi: Ptr) {
    match t
    case Nil => true
    case Node(c, l, x, k, r) =>
      && x != NULL && x in h
      && h[x] == RecordOf(c, l, k, r, lo, hi)
      && Linked(h, l, lo, x) && Linked(h, r, x, hi)
  }

  /** A record with the right fields over two linked subtrees is a linked subtree. */
  lemma LinkedNode(h: Heap, c: Color, l: Tree, x: Ptr, k: int, r: Tree, lo: Ptr, hi: Ptr)
    requires x != NULL && x in h && h[x] == RecordOf(c, l, k, r, lo, hi)
    requires Linked(h, l, lo, x) && Linked(h, r, x, hi)
    ensures Linked(h, Node(c, l, x, k, r), lo, hi)
  {
  }

  /** What the record of a linked subtree's root says about the subtree. */
  lemma NodeAt(h: Heap, t: Tree, lo: Ptr, hi: Ptr)
    requires Linked(h, t, lo, hi) && t.Node?
    ensures t.id in h && h[t.id].key == t.key
    ensures IsRed(h[t.id].status) == (t.color == Red)
    ensures IsLeftThrd(h[t.id].status) == t.left.Nil? && IsRightThrd(h[t.id].status) == t.right.Nil?
    ensures h[t.id].left == (if t.left.Nil? then lo else t.left.id)
    ensures h[t.id].right == (if t.right.Nil? then hi else t.right.id)
    ensures Linked(h, t.left, lo, t.id) && Linked(h, t.right, t.id, hi)
  {
  }

  /** h' differs from h only on the records in s, and no key changes. */
  ghost predicate SameOutside(h: Heap, h': Heap, s: set<Ptr>) {
    && h'.Keys == h.Keys
    && (forall z | z in h :: h'[z].key == h[z].key)
    && (forall z | z in h && z !in s :: h'[z] == h[z])
  }

  lemma SameOutsideTrans(h1: Heap, h2: Heap, h3: Heap, s1: set<Ptr>, s2: set<Ptr>, s: set<Ptr>)
    requires SameOutside(h1, h2, s1) && SameOutside(h2, h3, s2) && s1 + s2 <= s
    ensures SameOutside(h1, h3, s)
  {
  }

  lemma {:induction false} LinkedIds(h: Heap, t: Tree, lo: Ptr, hi: Ptr)
    requires Linked(h, t, lo, hi)
    ensures IdSet(t) <= h.Keys && NULL !in IdSet(t)
  {
    match t
    case Nil =>
    case Node(_, l, x, _, r) =>
      LinkedIds(h, l, lo, x);
      LinkedIds(h, r, x, hi);
  }

  /** Linked only reads the records of the subtree. */
  lemma {:induction false} LinkedFrame(h: Heap, h': Heap, t: Tree, lo: Ptr, hi: Ptr)
    requires Linked(h, t, lo, hi)
    requires forall z | z in IdSet(t) :: z in h' && z in h && h'[z] == h[z]
    ensures Linked(h', t, lo, hi)
  {
    match t
    case Nil =>
    case Node(_, l, x, _, r) =>
      LinkedFrame(h, h', l, lo, x);
      LinkedFrame(h, h', r, x, hi);
  }

  lemma LinkedOutside(h: Heap, h': Heap, s: set<Ptr>, t: Tree, lo: Ptr, hi: Ptr)
    requires Linked(h, t, lo, hi) && SameOutside(h, h', s) && IdSet(t) !! s
    ensures Linked(h', t, lo, hi)
  {
    LinkedIds(h, t, lo, hi);
    LinkedFrame(h, h', t, lo, hi);
  }

  /** Repointing the last record's right thread moves the upper bound. */
  lemma {:induction false} ReboundHi(h: Heap, h': Heap, t: Tree, lo: Ptr, hi: Ptr, hi': Ptr)
    requires t.Node? && UniqueIds(t) && Linked(h, t, lo, hi)
    requires forall z | z in IdSet(t) && z != RightmostId(t) :: z in h' && z in h && h'[z] == h[z]
    requires RightmostId(t) in h' && RightmostId(t) in h
    requires h'[RightmostId(t)] == h[RightmostId(t)].(right := hi')
    ensures Linked(h', t, lo, hi')
  {
    var Node(_, l, x, _, r) := t;
    if r.Nil? {
      LinkedFrame(h, h', l, lo, x);
    } else {
      LinkedFrame(h, h', l, lo, x);
      ReboundHi(h, h', r, x, hi, hi');
    }
  }

  /** Repointing the first record's left thread moves the lower bound. */
  lemma {:induction false} ReboundLo(h: Heap, h': Heap, t: Tree, lo: Ptr, hi: Ptr, lo': Ptr)
    requires t.Node? && UniqueIds(t) && Linked(h, t, lo, hi)
    requires forall z | z in IdSet(t) && z != LeftmostId(t) :: z in h' && z in h && h'[z] == h[z]
    requires LeftmostId(t) in h' && LeftmostId(t) in h
    requires h'[LeftmostId(t)] == h[LeftmostId(t)].(left := lo')
    ensures Linked(h', t, lo', hi)
  {
    var Node(_, l, x, _, r) := t;
    if l.Nil? {
      LinkedFrame(h, h', r, x, hi);
    } else {
      LinkedFrame(h, h', r, x, hi);
      ReboundLo(h, h', l, lo, x, lo');
    }
  }

  /** The subtree of t whose root is the record at in-order position i. */
  ghost function SubAt(t: Tree, i: nat): (u: Tree)
    requires i < |InOrder(t)|
    ensures u.Node? && u.id == InOrder(t)[i]
    decreases t
  {
    var n := |InOrder(t.left)|;
    if i < n then SubAt(t.left, i)
    else if i == n then t
    else SubAt(t.right, i - n - 1)
  }

  /** The subtree at position i occupies the contiguous stretch
      SubStart..SubEnd of the in-order sequence. */
  lemma {:induction false} SubAtRange(t: Tree, i: nat)
    requires i < |InOrder(t)|
    ensures |InOrder(SubAt(t, i).left)| <= i
    ensures i + 1 + |InOrder(SubAt(t, i).right)| <= |InOrder(t)|
    ensures InOrder(SubAt(t, i)) == InOrder(t)[i - |InOrder(SubAt(t, i).left)|..i + 1 + |InOrder(SubAt(t, i).right)|]
    decreases t
  {
    var n := |InOrder(t.left)|;
    if i < n {
      SubAtRange(t.left, i);
      RangeLeft(t, i);
    } else if i > n {
      var j := i - n - 1;
      SubAtRange(t.right, j);
      RangeRight(t, i, j);
    } else {
      var s := InOrder(t);
      assert SubAt(t, i) == t;
      assert s[0..|s|] == s;
    }
  }

  /** The stretch of a position in the left subtree carries over to t. */
  lemma RangeLeft(t: Tree, i: nat)
    requires t.Node? && i < |InOrder(t.left)|
    requires |InOrder(SubAt(t.left, i).left)| <= i
    requires i + 1 + |InOrder(SubAt(t.left, i).right)| <= |InOrder(t.left)|
    requires InOrder(SubAt(t.left, i)) == InOrder(t.left)[i - |InOrder(SubAt(t.left, i).left)|..i + 1 + |InOrder(SubAt(t.left, i).right)|]
    ensures |InOrder(SubAt(t, i).left)| <= i
    ensures i + 1 + |InOrder(SubAt(t, i).right)| <= |InOrder(t)|
    ensures InOrder(SubAt(t, i)) == InOrder(t)[i - |InOrder(SubAt(t, i).left)|..i + 1 + |InOrder(SubAt(t, i).right)|]
  {
    var Node(_, l, x, _, r) := t;
    var u := SubAt(l, i);
    assert u == SubAt(t, i);
    var a, b := i - |InOrder(u.left)|, i + 1 + |InOrder(u.right)|;
    SliceLeft(InOrder(l), x, InOrder(r), a, b);
  }

  /** The stretch of a position in the right subtree carries over to t,
      shifted past the left subtree and the root. */
  lemma RangeRight(t: Tree, i: nat, j: nat)
    requires t.Node? && |InOrder(t.left)| < i < |InOrder(t)| && j == i - |InOrder(t.left)| - 1
    requires j < |InOrder(t.right)| && |InOrder(SubAt(t.right, j).left)| <= j
    requires j + 1 + |InOrder(SubAt(t.right, j).right)| <= |InOrder(t.right)|
    requires InOrder(SubAt(t.right, j)) == InOrder(t.right)[j - |InOrder(SubAt(t.right, j).left)|..j + 1 + |InOrder(SubAt(t.right, j).right)|]
    ensures |InOrder(SubAt(t, i).left)| <= i
    ensures i + 1 + |InOrder(SubAt(t, i).right)| <= |InOrder(t)|
    ensures InOrder(SubAt(t, i)) == InOrder(t)[i - |InOrder(SubAt(t, i).left)|..i + 1 + |InOrder(SubAt(t, i).right)|]
  {
    var Node(_, l, x, _, r) := t;
    var u := SubAt(r, j);
    assert u == SubAt(t, i);
    var a, b := j - |InOrder(u.left)|, j + 1 + |InOrder(u.right)|;
    SliceRight(InOrder(l), x, InOrder(r), a, b);
  }

  lemma SliceLeft(a: seq<Ptr>, x: Ptr, b: seq<Ptr>, i: nat, j: nat)
    requires i <= j <= |a|
    ensures (a + [x] + b)[i..j] == a[i..j]
  {
  }

  lemma SliceRight(a: seq<Ptr>, x: Ptr, b: seq<Ptr>, i: nat, j: nat)
    requires i <= j <= |b|
    ensures (a + [x] + b)[|a| + 1 + i..|a| + 1 + j] == b[i..j]
  {
  }

  ghost function SubStart(t: Tree, i: nat): nat
    requires i < |InOrder(t)|
  {
    SubAtRange(t, i);
    i - |InOrder(SubAt(t, i).left)|
  }

  ghost function SubEnd(t: Tree, i: nat): nat
    requires i < |InOrder(t)|
  {
    i + 1 + |InOrder(SubAt(t, i).right)|
  }

  lemma SubAtSlice(t: Tree, i: nat)
    requires i < |InOrder(t)|
    ensures |InOrder(SubAt(t, i).left)| <= i && SubEnd(t, i) <= |InOrder(t)|
    ensures InOrder(SubAt(t, i)) == InOrder(t)[SubStart(t, i)..SubEnd(t, i)]
  {
    SubAtRange(t, i);
  }

  /** The in-order neighbours of the stretch the subtree at i occupies. */
  ghost function Before(t: Tree, i: nat, lo: Ptr): Ptr
    requires i < |InOrder(t)|
  {
    var a := SubStart(t, i);
    if a == 0 then lo else InOrder(t)[a - 1]
  }

  ghost function After(t: Tree, i: nat, hi: Ptr): Ptr
    requires i < |InOrder(t)|
  {
    SubAtRange(t, i);
    var b := SubEnd(t, i);
    if b == |InOrder(t)| then hi else InOrder(t)[b]
  }

  /** The outward threads of the subtree at i are the records just outside
      the stretch it occupies. */
  lemma {:induction false} SubAtLinked(h: Heap, t: Tree, lo: Ptr, hi: Ptr, i: nat)
    requires Linked(h, t, lo, hi) && i < |InOrder(t)|
    ensures Linked(h, SubAt(t, i), Before(t, i, lo), After(t, i, hi))
    decreases t
  {
    var n := |InOrder(t.left)|;
    if i < n {
      SubAtLinked(h, t.left, lo, t.id, i);
      WindowLeft(t, lo, hi, i);
    } else if i > n {
      SubAtLinked(h, t.right, t.id, hi, i - n - 1);
      WindowRight(t, lo, hi, i);
    }
  }

  /** A position in the left subtree has the same stretch and neighbours
      there as in t, with t's root as the upper bound. */
  lemma WindowLeft(t: Tree, lo: Ptr, hi: Ptr, i: nat)
    requires t.Node? && i < |InOrder(t.left)|
    ensures SubAt(t, i) == SubAt(t.left, i)
    ensures Before(t, i, lo) == Before(t.left, i, lo) && After(t, i, hi) == After(t.left, i, t.id)
  {
    var Node(_, l, x, _, r) := t;
    var s, sl, sr := InOrder(t), InOrder(l), InOrder(r);
    var n := |sl|;
    SubAtRange(t, i);
    SubAtRange(l, i);
    var b := SubEnd(l, i);
    assert SubStart(t, i) == SubStart(l, i) && SubEnd(t, i) == b;
    assert b <= n;
    assert b < n ==> s[b] == sl[b];
  }

  /** A position in the right subtree has the same stretch and neighbours
      there, shifted past the left subtree and the root. */
  lemma WindowRight(t: Tree, lo: Ptr, hi: Ptr, i: nat)
    requires t.Node? && |InOrder(t.left)| < i < |InOrder(t)|
    ensures i - |InOrder(t.left)| - 1 < |InOrder(t.right)|
    ensures SubAt(t, i) == SubAt(t.right, i - |InOrder(t.left)| - 1)
    ensures Before(t, i, lo) == Before(t.right, i - |InOrder(t.left)| - 1, t.id)
    ensures After(t, i, hi) == After(t.right, i - |InOrder(t.left)| - 1, hi)
  {
    var Node(_, l, x, _, r) := t;
    var s, sl, sr := InOrder(t), InOrder(l), InOrder(r);
    var n := |sl|;
    var j := i - n - 1;
    var u := SubAt(r, j);
    assert SubAt(t, i) == u;
    SubAtRange(r, j);
    assert s == sl + [x] + sr;
    var a, b := SubStart(r, j), SubEnd(r, j);
    assert SubStart(t, i) == n + 1 + a && SubEnd(t, i) == n + 1 + b;
    assert a > 0 ==> s[n + a] == sr[a - 1];
    assert b < |sr| ==> s[n + 1 + b] == sr[b];
  }
}
