/*********************************************************************
 * The abstract red-black tree that the linked records represent, and
 * the invariants the engine keeps between two public calls: search
 * order, no red node with a red child, equal black height on every
 * path.  Threads are not part of this view: they are derived from the
 * in-order sequence (see RbtLinks).
 *********************************************************************/
module RbtTree {
  import opened RbtInternal

  datatype Color = Red | Black

  /** A subtree: its root's colour, its two subtrees, the record at its
      root and that record's key. */
  datatype Tree = Nil | Node(color: Color, left: Tree, id: Ptr, key: int, right: Tree)

  /** The pointer a slot holding this subtree contains (NULL for no subtree). */
  function RootPtr(t: Tree): Ptr {
    if t.Nil? then NULL else t.id
  }

  /** The records in in-order (ascending) traversal order. */
  function InOrder(t: Tree): seq<Ptr> {
    match t
    case Nil => []
    case Node(_, l, x, _, r) => InOrder(l) + [x] + InOrder(r)
  }

  /** The keys in in-order traversal order. */
  function Keys(t: Tree): seq<int> {
    match t
    case Nil => []
    case Node(_, l, _, k, r) => Keys(l) + [k] + Keys(r)
  }

  function KeySet(t: Tree): set<int> {
    match t
    case Nil => {}
    case Node(_, l, _, k, r) => KeySet(l) + {k} + KeySet(r)
  }

  function IdSet(t: Tree): set<Ptr> {
    match t
    case Nil => {}
    case Node(_, l, x, _, r) => IdSet(l) + {x} + IdSet(r)
  }

  /** What the tree stores: which record holds each key. */
  function Contents(t: Tree): map<int, Ptr> {
    match t
    case Nil => map[]
    case Node(_, l, x, k, r) => (Contents(l) + Contents(r))[k := x]
  }

  /** No record occurs twice in the tree. */
  ghost predicate UniqueIds(t: Tree) {
    match t
    case Nil => true
    case Node(_, l, x, _, r) =>
      && x !in IdSet(l) && x !in IdSet(r) && IdSet(l) !! IdSet(r)
      && UniqueIds(l) && UniqueIds(r)
  }

  /** Search-tree order under the node comparator: smaller keys to the left. */
  ghost predicate SearchTree(t: Tree) {
    match t
    case Nil => true
    case Node(_, l, _, k, r) =>
      && SearchTree(l) && SearchTree(r)
      && (forall y | y in KeySet(l) :: y < k)
      && (forall y | y in KeySet(r) :: k < y)
  }

  /** The number of black records on the leftmost path. */
  function BH(t: Tree): nat {
    match t
    case Nil => 0
    case Node(c, l, _, _, _) => BH(l) + (if c == Black then 1 else 0)
  }

  /** Every root-to-leaf path has the same number of black records. */
  ghost predicate Balanced(t: Tree) {
    match t
    case Nil => true
    case Node(_, l, _, _, r) => Balanced(l) && Balanced(r) && BH(l) == BH(r)
  }

  predicate IsBlackRooted(t: Tree) {
    t.Nil? || t.color == Black
  }

  /** No red record has a red child. */
  ghost predicate NoRedRed(t: Tree) {
    match t
    case Nil => true
    case Node(c, l, _, _, r) =>
      && (c == Red ==> IsBlackRooted(l) && IsBlackRooted(r))
      && NoRedRed(l) && NoRedRed(r)
  }

  ghost predicate RB(t: Tree) {
    Balanced(t) && NoRedRed(t)
  }

  function Blacken(t: Tree): Tree {
    if t.Nil? then t else t.(color := Black)
  }

  function Redden(t: Tree): Tree {
    if t.Nil? then t else t.(color := Red)
  }

  predicate StrictlyIncreasing(s: seq<int>) {
    forall i, j | 0 <= i < j < |s| :: s[i] < s[j]
  }

  lemma KeySetIsKeys(t: Tree)
    ensures forall y :: y in KeySet(t) <==> y in Keys(t)
  {
  }

  lemma IdSetIsInOrder(t: Tree)
    ensures forall y :: y in IdSet(t) <==> y in InOrder(t)
  {
  }

  lemma {:induction false} LengthsAgree(t: Tree)
    ensures |Keys(t)| == |InOrder(t)|
  {
    match t
    case Nil =>
    case Node(_, l, _, _, r) => LengthsAgree(l); LengthsAgree(r);
  }

  lemma ContentsKeys(t: Tree)
    ensures Contents(t).Keys == KeySet(t)
  {
  }

  /** A strictly increasing concatenation around a pivot. */
  lemma IncreasingConcat(a: seq<int>, k: int, b: seq<int>)
    ensures StrictlyIncreasing(a + [k] + b) <==>
      && StrictlyIncreasing(a) && StrictlyIncreasing(b)
      && (forall y | y in a :: y < k) && (forall y | y in b :: k < y)
  {
    if StrictlyIncreasing(a + [k] + b) {
      IncreasingSplit(a, k, b);
    }
    if && StrictlyIncreasing(a) && StrictlyIncreasing(b)
       && (forall y | y in a :: y < k) && (forall y | y in b :: k < y)
    {
      IncreasingJoin(a, k, b);
    }
  }

  lemma IncreasingSplit(a: seq<int>, k: int, b: seq<int>)
    requires StrictlyIncreasing(a + [k] + b)
    ensures StrictlyIncreasing(a) && StrictlyIncreasing(b)
    ensures (forall y | y in a :: y < k) && (forall y | y in b :: k < y)
  {
    var s := a + [k] + b;
    assert forall i | 0 <= i < |a| :: s[i] == a[i];
    assert forall i | 0 <= i < |b| :: s[|a| + 1 + i] == b[i];
    assert s[|a|] == k;
    forall i, j | 0 <= i < j < |a| ensures a[i] < a[j] {
      assert s[i] < s[j];
    }
    forall i, j | 0 <= i < j < |b| ensures b[i] < b[j] {
      assert s[|a| + 1 + i] < s[|a| + 1 + j];
    }
    forall y | y in a ensures y < k {
      var i :| 0 <= i < |a| && a[i] == y;
      assert s[i] < s[|a|];
    }
    forall y | y in b ensures k < y {
      var i :| 0 <= i < |b| && b[i] == y;
      assert s[|a|] < s[|a| + 1 + i];
    }
  }

  lemma IncreasingJoin(a: seq<int>, k: int, b: seq<int>)
    requires StrictlyIncreasing(a) && StrictlyIncreasing(b)
    requires (forall y | y in a :: y < k) && (forall y | y in b :: k < y)
    ensures StrictlyIncreasing(a + [k] + b)
  {
    var s := a + [k] + b;
    forall i, j | 0 <= i < j < |s| ensures s[i] < s[j] {
      if j < |a| {
        assert s[i] == a[i] && s[j] == a[j];
      } else if j == |a| {
        assert s[i] == a[i] && a[i] in a;
      } else if i < |a| {
        assert s[i] == a[i] && a[i] in a;
        assert s[j] == b[j - |a| - 1] && b[j - |a| - 1] in b;
      } else if i == |a| {
        assert s[j] == b[j - |a| - 1] && b[j - |a| - 1] in b;
      } else {
        assert s[i] == b[i - |a| - 1] && s[j] == b[j - |a| - 1];
      }
    }
  }

  /** Search order is exactly a strictly ascending in-order key sequence. */
  lemma {:induction false} SearchTreeIffSorted(t: Tree)
    ensures SearchTree(t) <==> StrictlyIncreasing(Keys(t))
  {
    match t
    case Nil =>
    case Node(_, l, _, k, r) =>
      SearchTreeIffSorted(l);
      SearchTreeIffSorted(r);
      KeySetIsKeys(l);
      KeySetIsKeys(r);
      IncreasingConcat(Keys(l), k, Keys(r));
  }

  /** In a search tree each key is stored once, so there are as many
      entries as records. */
  lemma {:induction false} ContentsSize(t: Tree)
    requires SearchTree(t)
    ensures |Contents(t)| == |InOrder(t)|
  {
    match t
    case Nil =>
    case Node(_, l, x, k, r) =>
      ContentsSize(l);
      ContentsSize(r);
      ContentsKeys(l);
      ContentsKeys(r);
      assert Contents(l).Keys !! Contents(r).Keys by {
        forall y | y in KeySet(l) ensures y !in KeySet(r) {
          assert y < k;
        }
      }
      MapUnionSize(Contents(l), Contents(r));
      MapAddSize(Contents(l) + Contents(r), k, x);
  }

  lemma MapUnionSize(m1: map<int, Ptr>, m2: map<int, Ptr>)
    requires m1.Keys !! m2.Keys
    ensures |m1 + m2| == |m1| + |m2|
  {
    assert (m1 + m2).Keys == m1.Keys + m2.Keys;
  }

  lemma MapAddSize(m: map<int, Ptr>, k: int, x: Ptr)
    requires k !in m
    ensures |m[k := x]| == |m| + 1
  {
    assert m[k := x].Keys == m.Keys + {k};
  }

  /** A record occurs at one in-order position only. */
  lemma {:induction false} InOrderDistinct(t: Tree)
    requires UniqueIds(t)
    ensures forall i, j | 0 <= i < |InOrder(t)| && 0 <= j < |InOrder(t)| && InOrder(t)[i] == InOrder(t)[j] :: i == j
  {
    match t
    case Nil =>
    case Node(_, l, x, _, r) =>
      InOrderDistinct(l);
      InOrderDistinct(r);
      IdSetIsInOrder(l);
      IdSetIsInOrder(r);
      var a, b := InOrder(l), InOrder(r);
      assert forall y | y in a :: y !in b;
      DistinctAround(a, x, b);
  }

  /** Two duplicate-free sequences with no common element, joined around
      an element neither holds, are duplicate-free. */
  lemma DistinctAround(a: seq<Ptr>, x: Ptr, b: seq<Ptr>)
    requires Distinct(a) && Distinct(b) && x !in a && x !in b
    requires forall y | y in a :: y !in b
    ensures Distinct(a + [x] + b)
  {
    var s := a + [x] + b;
    forall i, j | 0 <= i < |s| && 0 <= j < |s| && s[i] == s[j] ensures i == j {
      if i < |a| {
        assert s[i] == a[i] && a[i] in a;
      } else if i > |a| {
        assert s[i] == b[i - |a| - 1] && b[i - |a| - 1] in b;
      }
      if j < |a| {
        assert s[j] == a[j] && a[j] in a;
      } else if j > |a| {
        assert s[j] == b[j - |a| - 1] && b[j - |a| - 1] in b;
      }
    }
  }

  predicate Distinct(s: seq<Ptr>) {
    forall i, j | 0 <= i < |s| && 0 <= j < |s| && s[i] == s[j] :: i == j
  }

  lemma DistinctConcat(a: seq<Ptr>, x: Ptr, b: seq<Ptr>)
    requires Distinct(a + [x] + b)
    ensures Distinct(a) && Distinct(b) && x !in a && x !in b
    ensures forall y | y in a :: y !in b
  {
    var s := a + [x] + b;
    assert forall i | 0 <= i < |a| :: s[i] == a[i];
    assert forall i | 0 <= i < |b| :: s[|a| + 1 + i] == b[i];
    assert s[|a|] == x;
    forall i, j | 0 <= i < |b| && 0 <= j < |b| && b[i] == b[j] ensures i == j {
      assert s[|a| + 1 + i] == s[|a| + 1 + j];
    }
    forall i | 0 <= i < |a| ensures a[i] != x {
      assert s[i] != s[|a|];
      forall j | 0 <= j < |b| ensures a[i] != b[j] {
        assert s[i] != s[|a| + 1 + j];
      }
    }
    forall j | 0 <= j < |b| ensures b[j] != x {
      assert s[|a| + 1 + j] != s[|a|];
    }
  }

  /** The records of a tree are pairwise distinct exactly when its in-order
      sequence has no repetition. */
  lemma {:induction false} UniqueIdsIffDistinct(t: Tree)
    ensures UniqueIds(t) <==> Distinct(InOrder(t))
  {
    match t
    case Nil =>
    case Node(_, l, x, _, r) =>
      UniqueIdsIffDistinct(l);
      UniqueIdsIffDistinct(r);
      IdSetIsInOrder(l);
      IdSetIsInOrder(r);
      if UniqueIds(t) {
        InOrderDistinct(t);
      }
      if Distinct(InOrder(t)) {
        DistinctConcat(InOrder(l), x, InOrder(r));
      }
  }

  /** In a search tree the key at each in-order position maps to the record
      at that position. */
  lemma {:induction false} ContentsIndex(t: Tree)
    requires SearchTree(t)
    ensures |Keys(t)| == |InOrder(t)|
    ensures forall i | 0 <= i < |Keys(t)| :: Keys(t)[i] in Contents(t) && Contents(t)[Keys(t)[i]] == InOrder(t)[i]
  {
    LengthsAgree(t);
    match t
    case Nil =>
    case Node(_, l, x, k, r) =>
      ContentsIndex(l);
      ContentsIndex(r);
      ContentsKeys(l);
      ContentsKeys(r);
      KeySetIsKeys(l);
      KeySetIsKeys(r);
      var ks, ids := Keys(t), InOrder(t);
      var cl: map<int, Ptr>, cr: map<int, Ptr> := Contents(l), Contents(r);
      assert Contents(t) == (cl + cr)[k := x];
      var n := |Keys(l)|;
      forall i | 0 <= i < |ks| ensures ks[i] in Contents(t) && Contents(t)[ks[i]] == ids[i] {
        if i < n {
          var y := Keys(l)[i];
          assert ks[i] == y && ids[i] == InOrder(l)[i];
          assert y in Keys(l);
          assert y in cl && y !in cr && y != k;
          assert (cl + cr)[y] == cl[y];
        } else if i > n {
          var y := Keys(r)[i - n - 1];
          assert ks[i] == y && ids[i] == InOrder(r)[i - n - 1];
          assert y in Keys(r);
          assert y in cr && y != k;
          assert (cl + cr)[y] == cr[y];
        } else {
          assert ks[i] == k && ids[i] == x;
        }
      }
  }

  /** Two trees with the same in-order records and keys (one a rotation or
      recolouring of the other). */
  ghost predicate SameOrder(t1: Tree, t2: Tree) {
    InOrder(t1) == InOrder(t2) && Keys(t1) == Keys(t2)
  }

  /** Everything the engine observes of a tree apart from its shape and
      colours is fixed by its in-order records and keys. */
  lemma {:induction false} SameOrderKeeps(t1: Tree, t2: Tree)
    requires SameOrder(t1, t2)
    ensures IdSet(t1) == IdSet(t2) && KeySet(t1) == KeySet(t2)
    ensures UniqueIds(t1) <==> UniqueIds(t2)
    ensures SearchTree(t1) <==> SearchTree(t2)
    ensures SearchTree(t1) ==> Contents(t1) == Contents(t2)
  {
    SameOrderSets(t1, t2);
    UniqueIdsIffDistinct(t1);
    UniqueIdsIffDistinct(t2);
    SearchTreeIffSorted(t1);
    SearchTreeIffSorted(t2);
    if SearchTree(t1) {
      SameOrderContents(t1, t2);
    }
  }

  lemma {:induction false} SameOrderSets(t1: Tree, t2: Tree)
    requires SameOrder(t1, t2)
    ensures IdSet(t1) == IdSet(t2) && KeySet(t1) == KeySet(t2)
  {
    IdSetIsInOrder(t1);
    IdSetIsInOrder(t2);
    KeySetIsKeys(t1);
    KeySetIsKeys(t2);
    assert IdSet(t1) == IdSet(t2) by {
      forall y ensures y in IdSet(t1) <==> y in IdSet(t2) {
        assert y in IdSet(t1) <==> y in InOrder(t1);
        assert y in IdSet(t2) <==> y in InOrder(t2);
      }
    }
    assert KeySet(t1) == KeySet(t2) by {
      forall y ensures y in KeySet(t1) <==> y in KeySet(t2) {
        assert y in KeySet(t1) <==> y in Keys(t1);
        assert y in KeySet(t2) <==> y in Keys(t2);
      }
    }
  }

  lemma {:induction false} SameOrderContents(t1: Tree, t2: Tree)
    requires SameOrder(t1, t2) && SearchTree(t1) && SearchTree(t2)
    ensures Contents(t1) == Contents(t2)
  {
    SameOrderSets(t1, t2);
    ContentsIndex(t1);
    ContentsIndex(t2);
    ContentsKeys(t1);
    ContentsKeys(t2);
    KeySetIsKeys(t1);
    var c1, c2 := Contents(t1), Contents(t2);
    assert c1.Keys == c2.Keys;
    forall y | y in c1 ensures c1[y] == c2[y] {
      assert y in Keys(t1);
      var i :| 0 <= i < |Keys(t1)| && Keys(t1)[i] == y;
      assert c1[Keys(t1)[i]] == InOrder(t1)[i];
      assert c2[Keys(t2)[i]] == InOrder(t2)[i];
    }
  }

  /** Looking a key up in a search tree only needs the side it lies on. */
  lemma ContentsBelow(t: Tree, y: int)
    requires t.Node? && SearchTree(t) && y < t.key
    ensures (y in Contents(t)) == (y in Contents(t.left))
    ensures y in Contents(t) ==> Contents(t)[y] == Contents(t.left)[y]
  {
    ContentsKeys(t.right);
  }

  lemma ContentsAbove(t: Tree, y: int)
    requires t.Node? && SearchTree(t) && t.key < y
    ensures (y in Contents(t)) == (y in Contents(t.right))
    ensures y in Contents(t) ==> Contents(t)[y] == Contents(t.right)[y]
  {
    ContentsKeys(t.left);
    ContentsKeys(t.right);
  }

  /** The first and last records in in-order: the ends of the left and
      right spines. */
  function LeftmostId(t: Tree): (x: Ptr)
    requires t.Node?
    ensures x == InOrder(t)[0] && x in IdSet(t)
  {
    if t.left.Nil? then t.id else LeftmostId(t.left)
  }

  function RightmostId(t: Tree): (x: Ptr)
    requires t.Node?
    ensures x == InOrder(t)[|InOrder(t)| - 1] && x in IdSet(t)
  {
    if t.right.Nil? then t.id else RightmostId(t.right)
  }

  /** The number of nodes. */
  function Size(t: Tree): nat {
    match t
    case Nil => 0
    case Node(_, l, _, _, r) => Size(l) + 1 + Size(r)
  }

  lemma {:induction false} SizeIsLength(t: Tree)
    ensures Size(t) == |InOrder(t)| == |Keys(t)|
  {
    match t
    case Nil =>
    case Node(_, l, _, _, r) =>
      SizeIsLength(l);
      SizeIsLength(r);
  }

  /** Subtree t occupies positions a.. of the in-order records s and keys
      ks: each node sits after the nodes of its left subtree. */
  ghost predicate Window(t: Tree, s: seq<Ptr>, ks: seq<int>, a: nat) {
    && |s| == |ks| && a + Size(t) <= |s|
    && match t
       case Nil => true
       case Node(_, l, x, k, r) =>
         && s[a + Size(l)] == x && ks[a + Size(l)] == k
         && Window(l, s, ks, a) && Window(r, s, ks, a + Size(l) + 1)
  }

  lemma {:induction false} WindowOf(t: Tree, s: seq<Ptr>, ks: seq<int>, a: nat)
    requires |s| == |ks| && a + Size(t) <= |s| && |InOrder(t)| == Size(t) == |Keys(t)|
    requires forall i | 0 <= i < Size(t) :: s[a + i] == InOrder(t)[i] && ks[a + i] == Keys(t)[i]
    ensures Window(t, s, ks, a)
  {
    match t
    case Nil =>
    case Node(_, l, x, k, r) =>
      SizeIsLength(l);
      SizeIsLength(r);
      forall i | 0 <= i < Size(l) ensures s[a + i] == InOrder(l)[i] && ks[a + i] == Keys(l)[i] {
        assert InOrder(t)[i] == InOrder(l)[i] && Keys(t)[i] == Keys(l)[i];
      }
      WindowOf(l, s, ks, a);
      var b := a + Size(l) + 1;
      forall i | 0 <= i < Size(r) ensures s[b + i] == InOrder(r)[i] && ks[b + i] == Keys(r)[i] {
        assert InOrder(t)[Size(l) + 1 + i] == InOrder(r)[i] && Keys(t)[Size(l) + 1 + i] == Keys(r)[i];
      }
      WindowOf(r, s, ks, b);
      assert InOrder(t)[Size(l)] == x && Keys(t)[Size(l)] == k;
  }

  lemma WindowWhole(t: Tree)
    ensures Window(t, InOrder(t), Keys(t), 0)
  {
    SizeIsLength(t);
    WindowOf(t, InOrder(t), Keys(t), 0);
  }
}
