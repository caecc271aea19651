/*********************************************************************
 * What find_unlink_fix does to the abstract tree (rbt_del.c).
 *
 * Fuf(t, mode, k) is the recursive descent on the subtree t: it returns
 * the action code the C function returns, the subtree the slot holds
 * afterwards, and the record that left the tree with its key.  mode is
 * var->delmode; var->ajust_thread is on exactly in search mode (the walk
 * to the successor runs with it off, and the two are always set and
 * restored together).  Unlink is unlink_from_tree, Successor the code
 * after the walk to the successor of a node with two children, and
 * BalanceLeft / BalanceRight are balance_black_left / _right with
 * REMOVAL cases 2 to 6.
 *
 * A BLACK_NO_KID or RED_NO_KID answer leaves the subtree as it was: the
 * caller that owns the slot turns it into a thread.  Remaining(d) is the
 * subtree once that has happened.
 *********************************************************************/
module RbtDelSpec {
  import opened RbtInternal
  import opened RbtTree
  import opened RbtTypes
  import opened RbtInsertSpec

  /** A_D_NODE_NOT_FOUND, A_D_BLACK_NO_KID, A_D_RED_NO_KID,
      A_D_INVALID_TREE, A_D_DELETE_COMPLETED, A_D_MIS_ONE_BLACK_LEVEL. */
  datatype DelAction = NotFound | BlackNoKid | RedNoKid | InvalidTree | Completed | MisOneBlack

  /** DELMODE_SEARCH, DELMODE_GO_LEFT, DELMODE_GO_RIGHT. */
  datatype DelMode = Search | GoLeft | GoRight

  datatype DelRes = DelRes(action: DelAction, tree: Tree, removed: Ptr, removedKey: int)

  /** The actions that report a record taken out of the tree. */
  predicate Found(a: DelAction) {
    a == BlackNoKid || a == RedNoKid || a == Completed || a == MisOneBlack
  }

  predicate NoKid(a: DelAction) {
    a == BlackNoKid || a == RedNoKid
  }

  /** The subtree once the slot of a removed leaf has become a thread. */
  function Remaining(d: DelRes): Tree {
    if NoKid(d.action) then Nil else d.tree
  }

  // ---------------------------------------------------------------
  // balance_black_left / balance_black_right
  // ---------------------------------------------------------------

  /** REMOVAL case 5 on the left: the black sibling s with a red left
      child and no red right child is rotated right; the child goes up
      black and s comes down red. */
  function Rem5Left(s: Tree): Tree
    requires s.Node? && s.left.Node?
  {
    Node(Black, s.left.left, s.left.id, s.left.key, Node(Red, s.left.right, s.id, s.key, s.right))
  }

  /** REMOVAL case 6 on the left: the black sibling s with a red right
      child rotates up over p and takes p's colour; p and that child turn
      black. */
  function Rem6Left(c: Color, l: Tree, p: Ptr, kp: int, s: Tree): Tree
    requires s.Node?
  {
    Node(c, Node(Black, l, p, kp, s.left), s.id, s.key, Blacken(s.right))
  }

  /** Cases 3 to 6 on the left, for a black sibling s.  The answer is true
      when the subtree is still one black level short (case 3). */
  function BalanceBlackLeft(c: Color, l: Tree, p: Ptr, kp: int, s: Tree): (bool, Tree) {
    if s.Nil? then (false, Node(c, l, p, kp, s)) // no sibling: not reached in a red-black tree
    else if !IsRedNode(s.right) then
      if !IsRedNode(s.left) then (c == Black, Node(Black, l, p, kp, Redden(s)))
      else (false, Rem6Left(c, l, p, kp, Rem5Left(s)))
    else (false, Rem6Left(c, l, p, kp, s))
  }

  /** balance_black_left on the node p whose left subtree l is one black
      level short, with sibling s.  Case 2, a red sibling, rotates it up
      and continues below it, at p, with the new black sibling. */
  function BalanceLeft(c: Color, l: Tree, p: Ptr, kp: int, s: Tree): (bool, Tree) {
    if IsRedNode(s) then
      var b := BalanceBlackLeft(Red, l, p, kp, s.left);
      (b.0, Node(Black, b.1, s.id, s.key, s.right))
    else BalanceBlackLeft(c, l, p, kp, s)
  }

  /** REMOVAL case 5 on the right: the black sibling s with a red right
      child and no red left child is rotated left. */
  function Rem5Right(s: Tree): Tree
    requires s.Node? && s.right.Node?
  {
    Node(Black, Node(Red, s.left, s.id, s.key, s.right.left), s.right.id, s.right.key, s.right.right)
  }

  /** REMOVAL case 6 on the right. */
  function Rem6Right(c: Color, s: Tree, p: Ptr, kp: int, r: Tree): Tree
    requires s.Node?
  {
    Node(c, Blacken(s.left), s.id, s.key, Node(Black, s.right, p, kp, r))
  }

  function BalanceBlackRight(c: Color, s: Tree, p: Ptr, kp: int, r: Tree): (bool, Tree) {
    if s.Nil? then (false, Node(c, s, p, kp, r)) // no sibling: not reached in a red-black tree
    else if !IsRedNode(s.left) then
      if !IsRedNode(s.right) then (c == Black, Node(Black, Redden(s), p, kp, r))
      else (false, Rem6Right(c, Rem5Right(s), p, kp, r))
    else (false, Rem6Right(c, s, p, kp, r))
  }

  /** balance_black_right on the node p whose right subtree r is one black
      level short, with sibling s. */
  function BalanceRight(c: Color, s: Tree, p: Ptr, kp: int, r: Tree): (bool, Tree) {
    if IsRedNode(s) then
      var b := BalanceBlackRight(Red, s.right, p, kp, r);
      (b.0, Node(Black, s.left, s.id, s.key, b.1))
    else BalanceBlackRight(c, s, p, kp, r)
  }

  /** The action find_unlink_fix returns after a balance call. */
  function FromBalance(b: (bool, Tree), removed: Ptr, removedKey: int): DelRes {
    DelRes(if b.0 then MisOneBlack else Completed, b.1, removed, removedKey)
  }

  // ---------------------------------------------------------------
  // find_unlink_fix and unlink_from_tree
  // ---------------------------------------------------------------

  /** The three-way answer the descent steers by: deleteCmp in search mode,
      and "is there a child on my side" while walking to an end. */
  function StepCmp(t: Tree, mode: DelMode, k: int): int
    requires t.Node?
  {
    match mode
    case Search => Cmp(t.key, k)
    case GoLeft => if t.left.Nil? then 0 else 1
    case GoRight => if t.right.Nil? then 0 else -1
  }

  function Fuf(t: Tree, mode: DelMode, k: int): DelRes
    requires t.Node?
    decreases t, 1
  {
    var rc := StepCmp(t, mode, k);
    if rc == 0 then Unlink(t, mode, k)
    else if rc > 0 then
      if t.left.Nil? then DelRes(NotFound, t, NULL, 0)
      else AfterLeft(t, Fuf(t.left, mode, k))
    else
      if t.right.Nil? then DelRes(NotFound, t, NULL, 0)
      else AfterRight(t, Fuf(t.right, mode, k))
  }

  /** The switch after the recursive call into the left subtree, which
      answered d. */
  function AfterLeft(t: Tree, d: DelRes): DelRes
    requires t.Node?
  {
    var Node(c, _, y, ky, r) := t;
    match d.action
    case NotFound => DelRes(NotFound, t, NULL, 0)
    case InvalidTree => DelRes(InvalidTree, t, NULL, 0)
    case Completed => DelRes(Completed, Node(c, d.tree, y, ky, r), d.removed, d.removedKey)
    case RedNoKid => DelRes(Completed, Node(c, Nil, y, ky, r), d.removed, d.removedKey)
    case BlackNoKid => FromBalance(BalanceLeft(c, Nil, y, ky, r), d.removed, d.removedKey)
    case MisOneBlack => FromBalance(BalanceLeft(c, d.tree, y, ky, r), d.removed, d.removedKey)
  }

  function AfterRight(t: Tree, d: DelRes): DelRes
    requires t.Node?
  {
    var Node(c, l, y, ky, _) := t;
    match d.action
    case NotFound => DelRes(NotFound, t, NULL, 0)
    case InvalidTree => DelRes(InvalidTree, t, NULL, 0)
    case Completed => DelRes(Completed, Node(c, l, y, ky, d.tree), d.removed, d.removedKey)
    case RedNoKid => DelRes(Completed, Node(c, l, y, ky, Nil), d.removed, d.removedKey)
    case BlackNoKid => FromBalance(BalanceRight(c, l, y, ky, Nil), d.removed, d.removedKey)
    case MisOneBlack => FromBalance(BalanceRight(c, l, y, ky, d.tree), d.removed, d.removedKey)
  }

  /** unlink_from_tree on the node t found by the descent, by its status
      byte (see StatusCases): a leaf is reported to the caller, a black
      node with one child is replaced by that child turned black, a node
      with two children by its successor, and a red node with one child
      is an invalid tree. */
  function Unlink(t: Tree, mode: DelMode, k: int): DelRes
    requires t.Node?
    decreases t, 0
  {
    var Node(c, l, x, kx, r) := t;
    if l.Nil? && r.Nil? then DelRes(if c == Black then BlackNoKid else RedNoKid, t, x, kx)
    else if c == Black && r.Nil? then DelRes(Completed, Blacken(l), x, kx)
    else if c == Black && l.Nil? then DelRes(Completed, Blacken(r), x, kx)
    else if l.Node? && r.Node? then Successor(t, Fuf(r, GoLeft, k))
    else DelRes(InvalidTree, t, NULL, 0)
  }

  /** Cases 6 and 7 of unlink_from_tree after the walk down the left
      spine of the right subtree, which answered d: the successor d.removed
      takes over the node's left subtree and status, and the right
      subtree is rebalanced when it came back one black level short. */
  function Successor(t: Tree, d: DelRes): DelRes
    requires t.Node?
  {
    var Node(c, l, x, kx, _) := t;
    match d.action
    case NotFound => DelRes(NotFound, t, NULL, 0)
    case InvalidTree => DelRes(InvalidTree, t, NULL, 0)
    case BlackNoKid => FromBalance(BalanceRight(c, l, d.removed, d.removedKey, Nil), x, kx)
    case RedNoKid => DelRes(Completed, Node(c, l, d.removed, d.removedKey, Nil), x, kx)
    case Completed => DelRes(Completed, Node(c, l, d.removed, d.removedKey, d.tree), x, kx)
    case MisOneBlack => FromBalance(BalanceRight(c, l, d.removed, d.removedKey, d.tree), x, kx)
  }

  /** The tree after delete_node: the root slot becomes empty when the
      root itself was the leaf removed. */
  function DeleteTree(t: Tree, k: int): Tree {
    if t.Nil? then t
    else
      var d := Fuf(t, Search, k);
      if Found(d.action) then Remaining(d) else t
  }

  // ---------------------------------------------------------------
  // Balancing keeps the in-order records and keys
  // ---------------------------------------------------------------

  lemma RecolourSame(t: Tree)
    ensures SameOrder(t, Blacken(t)) && SameOrder(t, Redden(t))
  {
  }

  lemma Regroup<T>(a: seq<T>, x: T, b: seq<T>, y: T, c: seq<T>)
    ensures a + [x] + (b + [y] + c) == a + [x] + b + [y] + c
  {
  }

  /** Replacing both subtrees of a node by trees in the same order. */
  lemma NodeSame(t: Tree, t': Tree)
    requires t.Node? && t'.Node? && t'.id == t.id && t'.key == t.key
    requires SameOrder(t.left, t'.left) && SameOrder(t.right, t'.right)
    ensures SameOrder(t, t')
  {
  }

  /** A rotation to the left: t' has t's root and the left part of t's
      right subtree on its left. */
  lemma RotSame(t: Tree, t': Tree)
    requires t.Node? && t.right.Node? && t'.Node?
    requires SameOrder(t'.left, Node(Red, t.left, t.id, t.key, t.right.left))
    requires t'.id == t.right.id && t'.key == t.right.key && SameOrder(t'.right, t.right.right)
    ensures SameOrder(t, t')
  {
    var Node(_, l, x, kx, Node(_, b, y, ky, c)) := t;
    Regroup<Ptr>(InOrder(l), x, InOrder(b), y, InOrder(c));
    Regroup<int>(Keys(l), kx, Keys(b), ky, Keys(c));
  }

  /** A rotation to the right. */
  lemma RotSameRight(t: Tree, t': Tree)
    requires t.Node? && t.left.Node? && t'.Node?
    requires SameOrder(t'.right, Node(Red, t.left.right, t.id, t.key, t.right))
    requires t'.id == t.left.id && t'.key == t.left.key && SameOrder(t'.left, t.left.left)
    ensures SameOrder(t, t')
  {
    var Node(_, Node(_, a, x, kx, b), y, ky, c) := t;
    Regroup<Ptr>(InOrder(a), x, InOrder(b), y, InOrder(c));
    Regroup<int>(Keys(a), kx, Keys(b), ky, Keys(c));
  }

  lemma Rem5LeftOrder(s: Tree)
    requires s.Node? && s.left.Node?
    ensures SameOrder(s, Rem5Left(s))
  {
    RotSame(Rem5Left(s), s);
  }

  lemma Rem6LeftOrder(t: Tree)
    requires t.Node? && t.right.Node?
    ensures SameOrder(t, Rem6Left(t.color, t.left, t.id, t.key, t.right))
  {
    RecolourSame(t.right.right);
    RotSame(t, Rem6Left(t.color, t.left, t.id, t.key, t.right));
  }

  lemma BalanceBlackLeftOrder(t: Tree)
    requires t.Node?
    ensures SameOrder(t, BalanceBlackLeft(t.color, t.left, t.id, t.key, t.right).1)
  {
    var Node(c, l, p, kp, s) := t;
    if s.Nil? {
    } else if !IsRedNode(s.right) {
      if !IsRedNode(s.left) {
        RecolourSame(s);
        NodeSame(t, Node(Black, l, p, kp, Redden(s)));
      } else {
        var t2 := Node(c, l, p, kp, Rem5Left(s));
        Rem5LeftOrder(s);
        NodeSame(t, t2);
        Rem6LeftOrder(t2);
      }
    } else {
      Rem6LeftOrder(t);
    }
  }

  /** balance_black_left only rotates and recolours. */
  lemma BalanceLeftOrder(t: Tree)
    requires t.Node?
    ensures SameOrder(t, BalanceLeft(t.color, t.left, t.id, t.key, t.right).1)
  {
    var Node(c, l, p, kp, s) := t;
    if IsRedNode(s) {
      var inner := Node(Red, l, p, kp, s.left);
      BalanceBlackLeftOrder(inner);
      var b := BalanceBlackLeft(Red, l, p, kp, s.left);
      RotSame(t, Node(Black, b.1, s.id, s.key, s.right));
    } else {
      BalanceBlackLeftOrder(t);
    }
  }

  lemma Rem5RightOrder(s: Tree)
    requires s.Node? && s.right.Node?
    ensures SameOrder(s, Rem5Right(s))
  {
    RotSame(s, Rem5Right(s));
  }

  lemma Rem6RightOrder(t: Tree)
    requires t.Node? && t.left.Node?
    ensures SameOrder(t, Rem6Right(t.color, t.left, t.id, t.key, t.right))
  {
    RecolourSame(t.left.left);
    RotSameRight(t, Rem6Right(t.color, t.left, t.id, t.key, t.right));
  }

  lemma BalanceBlackRightOrder(t: Tree)
    requires t.Node?
    ensures SameOrder(t, BalanceBlackRight(t.color, t.left, t.id, t.key, t.right).1)
  {
    var Node(c, s, p, kp, r) := t;
    if s.Nil? {
    } else if !IsRedNode(s.left) {
      if !IsRedNode(s.right) {
        RecolourSame(s);
        NodeSame(t, Node(Black, Redden(s), p, kp, r));
      } else {
        var t2 := Node(c, Rem5Right(s), p, kp, r);
        Rem5RightOrder(s);
        NodeSame(t, t2);
        Rem6RightOrder(t2);
      }
    } else {
      Rem6RightOrder(t);
    }
  }

  /** balance_black_right only rotates and recolours. */
  lemma BalanceRightOrder(t: Tree)
    requires t.Node?
    ensures SameOrder(t, BalanceRight(t.color, t.left, t.id, t.key, t.right).1)
  {
    var Node(c, s, p, kp, r) := t;
    if IsRedNode(s) {
      var inner := Node(Red, s.right, p, kp, r);
      BalanceBlackRightOrder(inner);
      var b := BalanceBlackRight(Red, s.right, p, kp, r);
      RotSameRight(t, Node(Black, s.left, s.id, s.key, b.1));
    } else {
      BalanceBlackRightOrder(t);
    }
  }

  // ---------------------------------------------------------------
  // A deletion takes exactly one record out of the in-order sequence
  // ---------------------------------------------------------------

  /** s without its element at position i. */
  function Drop<T>(s: seq<T>, i: nat): seq<T>
    requires i < |s|
  {
    s[..i] + s[i + 1..]
  }

  lemma DropInLeft<T>(a: seq<T>, y: T, b: seq<T>, i: nat)
    requires i < |a|
    ensures (a + [y] + b)[i] == a[i] && Drop(a + [y] + b, i) == Drop(a, i) + [y] + b
  {
    var s := a + [y] + b;
    assert s[..i] == a[..i];
    assert s[i + 1..] == a[i + 1..] + [y] + b;
  }

  lemma DropInRight<T>(a: seq<T>, y: T, b: seq<T>, i: nat)
    requires i < |b|
    ensures (a + [y] + b)[|a| + 1 + i] == b[i] && Drop(a + [y] + b, |a| + 1 + i) == a + [y] + Drop(b, i)
  {
    var s := a + [y] + b;
    var j := |a| + 1 + i;
    assert s[..j] == a + [y] + b[..i];
    assert s[j + 1..] == b[i + 1..];
  }

  lemma DropMiddle<T>(a: seq<T>, y: T, b: seq<T>)
    ensures (a + [y] + b)[|a|] == y && Drop(a + [y] + b, |a|) == a + b
  {
    var s := a + [y] + b;
    assert s[..|a|] == a;
    assert s[|a| + 1..] == b;
  }

  lemma DropRoot<T>(a: seq<T>, x: T, y: T, b: seq<T>)
    ensures (a + [x] + ([y] + b))[|a|] == x && Drop(a + [x] + ([y] + b), |a|) == a + [y] + b
  {
    var s := a + [x] + ([y] + b);
    assert s[..|a|] == a;
    assert s[|a| + 1..] == [y] + b;
  }

  /** u is t with the record x of key kx at in-order position i taken out. */
  ghost predicate RemovedAt(t: Tree, u: Tree, i: nat, x: Ptr, kx: int) {
    && i < |InOrder(t)| && |Keys(t)| == |InOrder(t)|
    && InOrder(t)[i] == x && Keys(t)[i] == kx
    && InOrder(u) == Drop(InOrder(t), i)
    && Keys(u) == Drop(Keys(t), i)
  }

  lemma RemovedLeaf(t: Tree)
    requires t.Node? && t.left.Nil? && t.right.Nil?
    ensures RemovedAt(t, Nil, 0, t.id, t.key)
  {
  }

  /** unlink_from_tree case 2: the node is replaced by its only child, on the left. */
  lemma RemovedLeftKid(t: Tree, u: Tree)
    requires t.Node? && t.right.Nil? && SameOrder(t.left, u)
    ensures RemovedAt(t, u, |InOrder(t.left)|, t.id, t.key)
  {
    LengthsAgree(t.left);
    DropMiddle<Ptr>(InOrder(t.left), t.id, []);
    DropMiddle<int>(Keys(t.left), t.key, []);
  }

  /** Case 4: the node is replaced by its only child, on the right. */
  lemma RemovedRightKid(t: Tree, u: Tree)
    requires t.Node? && t.left.Nil? && SameOrder(t.right, u)
    ensures RemovedAt(t, u, 0, t.id, t.key)
  {
    LengthsAgree(t.right);
    DropMiddle<Ptr>([], t.id, InOrder(t.right));
    DropMiddle<int>([], t.key, Keys(t.right));
  }

  /** t' is t with its left subtree replaced by u. */
  lemma RemovedLeft(t: Tree, t': Tree, u: Tree, i: nat, x: Ptr, kx: int)
    requires t.Node? && t'.Node? && t'.left == u && t'.id == t.id && t'.key == t.key && t'.right == t.right
    requires RemovedAt(t.left, u, i, x, kx)
    ensures RemovedAt(t, t', i, x, kx)
  {
    var Node(_, l, y, ky, r) := t;
    LengthsAgree(r);
    DropInLeft<Ptr>(InOrder(l), y, InOrder(r), i);
    DropInLeft<int>(Keys(l), ky, Keys(r), i);
  }

  /** t' is t with its right subtree replaced by u. */
  lemma RemovedRight(t: Tree, t': Tree, u: Tree, i: nat, x: Ptr, kx: int)
    requires t.Node? && t'.Node? && t'.left == t.left && t'.id == t.id && t'.key == t.key && t'.right == u
    requires RemovedAt(t.right, u, i, x, kx)
    ensures RemovedAt(t, t', |InOrder(t.left)| + 1 + i, x, kx)
  {
    var Node(_, l, y, ky, r) := t;
    LengthsAgree(l);
    DropInRight<Ptr>(InOrder(l), y, InOrder(r), i);
    DropInRight<int>(Keys(l), ky, Keys(r), i);
  }

  lemma RemovedFirst(r: Tree, u: Tree, a: Ptr, ka: int)
    requires RemovedAt(r, u, 0, a, ka)
    ensures InOrder(r) == [a] + InOrder(u) && Keys(r) == [ka] + Keys(u)
  {
    var sr, kr := InOrder(r), Keys(r);
    assert Drop(sr, 0) == sr[1..];
    assert Drop(kr, 0) == kr[1..];
  }

  /** Cases 6 and 7: t' is t with its root replaced by the successor a,
      the first record of its right subtree, and that subtree by u. */
  lemma RemovedRoot(t: Tree, t': Tree, u: Tree, a: Ptr, ka: int)
    requires t.Node? && t'.Node? && t'.left == t.left && t'.id == a && t'.key == ka && t'.right == u
    requires RemovedAt(t.right, u, 0, a, ka)
    ensures RemovedAt(t, t', |InOrder(t.left)|, t.id, t.key)
  {
    var Node(_, l, x, kx, r) := t;
    RemovedFirst(r, u, a, ka);
    LengthsAgree(l);
    LengthsAgree(u);
    DropRoot<Ptr>(InOrder(l), x, a, InOrder(u));
    DropRoot<int>(Keys(l), kx, ka, Keys(u));
  }

  lemma RemovedSame(t: Tree, u: Tree, u': Tree, i: nat, x: Ptr, kx: int)
    requires RemovedAt(t, u, i, x, kx) && SameOrder(u, u')
    ensures RemovedAt(t, u', i, x, kx)
  {
  }

  /** What find_unlink_fix on t in the given mode, which answered d,
      did to the in-order sequence: took out exactly the record at
      position i, which is the one whose key is k in search mode, the
      first in GO_LEFT mode and the last in GO_RIGHT mode; any answer that
      removes nothing leaves the subtree as it was. */
  ghost predicate Takes(t: Tree, mode: DelMode, k: int, d: DelRes, i: nat) {
    && (!Found(d.action) ==> d.tree == t)
    && (Found(d.action) ==> RemovedAt(t, Remaining(d), i, d.removed, d.removedKey))
    && (Found(d.action) && mode == Search ==> d.removedKey == k)
    && (Found(d.action) && mode == GoLeft ==> i == 0)
    && (Found(d.action) && mode == GoRight ==> i + 1 == |InOrder(t)|)
  }

  lemma AfterLeftSeq(t: Tree, mode: DelMode, k: int, d: DelRes, i: nat)
    requires t.Node? && t.left.Node? && StepCmp(t, mode, k) > 0 && Takes(t.left, mode, k, d, i)
    ensures Takes(t, mode, k, AfterLeft(t, d), i)
  {
    var Node(c, l, y, ky, r) := t;
    match d.action
    case NotFound =>
    case InvalidTree =>
    case Completed => RemovedLeft(t, Node(c, d.tree, y, ky, r), d.tree, i, d.removed, d.removedKey);
    case RedNoKid => RemovedLeft(t, Node(c, Nil, y, ky, r), Nil, i, d.removed, d.removedKey);
    case BlackNoKid =>
      RemovedLeft(t, Node(c, Nil, y, ky, r), Nil, i, d.removed, d.removedKey);
      BalanceLeftOrder(Node(c, Nil, y, ky, r));
    case MisOneBlack =>
      RemovedLeft(t, Node(c, d.tree, y, ky, r), d.tree, i, d.removed, d.removedKey);
      BalanceLeftOrder(Node(c, d.tree, y, ky, r));
  }

  lemma AfterRightSeq(t: Tree, mode: DelMode, k: int, d: DelRes, i: nat)
    requires t.Node? && t.right.Node? && StepCmp(t, mode, k) < 0 && Takes(t.right, mode, k, d, i)
    ensures Takes(t, mode, k, AfterRight(t, d), |InOrder(t.left)| + 1 + i)
  {
    var Node(c, l, y, ky, r) := t;
    match d.action
    case NotFound =>
    case InvalidTree =>
    case Completed => RemovedRight(t, Node(c, l, y, ky, d.tree), d.tree, i, d.removed, d.removedKey);
    case RedNoKid => RemovedRight(t, Node(c, l, y, ky, Nil), Nil, i, d.removed, d.removedKey);
    case BlackNoKid =>
      RemovedRight(t, Node(c, l, y, ky, Nil), Nil, i, d.removed, d.removedKey);
      BalanceRightOrder(Node(c, l, y, ky, Nil));
    case MisOneBlack =>
      RemovedRight(t, Node(c, l, y, ky, d.tree), d.tree, i, d.removed, d.removedKey);
      BalanceRightOrder(Node(c, l, y, ky, d.tree));
  }

  lemma SuccessorSeq(t: Tree, mode: DelMode, k: int, d: DelRes)
    requires t.Node? && t.left.Node? && t.right.Node? && StepCmp(t, mode, k) == 0
    requires Takes(t.right, GoLeft, k, d, 0)
    ensures Takes(t, mode, k, Successor(t, d), |InOrder(t.left)|)
  {
    var Node(c, l, x, kx, r) := t;
    match d.action
    case NotFound =>
    case InvalidTree =>
    case Completed => RemovedRoot(t, Node(c, l, d.removed, d.removedKey, d.tree), d.tree, d.removed, d.removedKey);
    case RedNoKid => RemovedRoot(t, Node(c, l, d.removed, d.removedKey, Nil), Nil, d.removed, d.removedKey);
    case BlackNoKid =>
      RemovedRoot(t, Node(c, l, d.removed, d.removedKey, Nil), Nil, d.removed, d.removedKey);
      BalanceRightOrder(Node(c, l, d.removed, d.removedKey, Nil));
    case MisOneBlack =>
      RemovedRoot(t, Node(c, l, d.removed, d.removedKey, d.tree), d.tree, d.removed, d.removedKey);
      BalanceRightOrder(Node(c, l, d.removed, d.removedKey, d.tree));
  }

  /** find_unlink_fix takes out exactly one record, the one it was sent
      for (see Takes). */
  lemma {:induction false} DelSeq(t: Tree, mode: DelMode, k: int) returns (i: nat)
    requires t.Node?
    decreases t, 1
    ensures Takes(t, mode, k, Fuf(t, mode, k), i)
  {
    i := 0;
    var rc := StepCmp(t, mode, k);
    if rc == 0 {
      assert Fuf(t, mode, k) == Unlink(t, mode, k);
      i := UnlinkSeq(t, mode, k);
    } else if rc > 0 {
      if t.left.Node? {
        var d := Fuf(t.left, mode, k);
        assert Fuf(t, mode, k) == AfterLeft(t, d);
        var j := DelSeq(t.left, mode, k);
        AfterLeftSeq(t, mode, k, d, j);
        i := j;
      }
    } else {
      if t.right.Node? {
        var d := Fuf(t.right, mode, k);
        assert Fuf(t, mode, k) == AfterRight(t, d);
        var j := DelSeq(t.right, mode, k);
        AfterRightSeq(t, mode, k, d, j);
        i := |InOrder(t.left)| + 1 + j;
      }
    }
  }

  lemma {:induction false} UnlinkSeq(t: Tree, mode: DelMode, k: int) returns (i: nat)
    requires t.Node? && StepCmp(t, mode, k) == 0
    decreases t, 0
    ensures Takes(t, mode, k, Unlink(t, mode, k), i)
  {
    i := 0;
    var Node(c, l, x, kx, r) := t;
    LengthsAgree(t);
    if l.Nil? && r.Nil? {
      RemovedLeaf(t);
    } else if c == Black && r.Nil? {
      RecolourSame(l);
      RemovedLeftKid(t, Blacken(l));
      i := |InOrder(l)|;
    } else if c == Black && l.Nil? {
      RecolourSame(r);
      RemovedRightKid(t, Blacken(r));
    } else if l.Node? && r.Node? {
      var j := DelSeq(r, GoLeft, k);
      SuccessorSeq(t, mode, k, Fuf(r, GoLeft, k));
      i := |InOrder(l)|;
    }
  }

  // ---------------------------------------------------------------
  // A deletion keeps the red-black invariants
  // ---------------------------------------------------------------

  /** The subtree x has lost one black level against its sibling s under
      a node of colour c: the situation balance_black_left / _right start
      from. */
  ghost predicate Short(c: Color, x: Tree, s: Tree) {
    && RB(x) && RB(s) && BH(s) == BH(x) + 1 && IsBlackRooted(x)
    && (c == Red ==> IsBlackRooted(s))
  }

  /** What a balance call b at a node of colour c with sibling s promises:
      a red-black subtree that, when it is still short (the function
      returned 1), has kept a black root and the sibling's black height,
      and otherwise has regained the black height the node had. */
  ghost predicate BalanceKept(c: Color, s: Tree, b: (bool, Tree)) {
    && b.1.Node? && RB(b.1)
    && (b.0 ==> c == Black && BH(b.1) == BH(s) && IsBlackRooted(b.1))
    && (!b.0 ==> BH(b.1) == BH(s) + (if c == Black then 1 else 0) && (IsRedNode(b.1) ==> c == Red))
  }

  /** What RB says about the two subtrees of a node. */
  lemma RBKids(t: Tree)
    requires t.Node? && RB(t)
    ensures RB(t.left) && RB(t.right) && BH(t.left) == BH(t.right)
    ensures t.color == Red ==> IsBlackRooted(t.left) && IsBlackRooted(t.right)
  {
  }

  /** A node is red-black when its subtrees are, have equal black height
      and a red node has no red child. */
  lemma RBNode(t: Tree)
    requires t.Node? && RB(t.left) && RB(t.right) && BH(t.left) == BH(t.right)
    requires t.color == Red ==> IsBlackRooted(t.left) && IsBlackRooted(t.right)
    ensures RB(t)
  {
  }

  lemma Rem5LeftKept(s: Tree)
    requires s.Node? && s.color == Black && RB(s) && IsRedNode(s.left) && !IsRedNode(s.right)
    ensures RB(Rem5Left(s)) && BH(Rem5Left(s)) == BH(s)
    ensures Rem5Left(s).color == Black && IsRedNode(Rem5Left(s).right)
  {
    var Node(_, sl, y, ky, c) := s;
    RBKids(s);
    RBKids(sl);
    var Node(_, a, x, kx, b) := sl;
    var n := Node(Red, b, y, ky, c);
    RBNode(n);
    RBNode(Node(Black, a, x, kx, n));
  }

  lemma Rem6LeftKept(c: Color, l: Tree, p: Ptr, kp: int, s: Tree)
    requires s.Node? && s.color == Black && RB(l) && RB(s) && IsRedNode(s.right) && BH(s) == BH(l) + 1
    ensures RB(Rem6Left(c, l, p, kp, s)) && Rem6Left(c, l, p, kp, s).color == c
    ensures BH(Rem6Left(c, l, p, kp, s)) == BH(s) + (if c == Black then 1 else 0)
  {
    var Node(_, a, y, ky, b) := s;
    RBKids(s);
    RBKids(b);
    var n := Node(Black, l, p, kp, a);
    RBNode(n);
    RBNode(Blacken(b));
    RBNode(Node(c, n, y, ky, Blacken(b)));
  }

  lemma BalanceBlackLeftKept(c: Color, l: Tree, p: Ptr, kp: int, s: Tree)
    requires Short(c, l, s) && IsBlackRooted(s)
    ensures BalanceKept(c, s, BalanceBlackLeft(c, l, p, kp, s))
  {
    if s.Nil? {
      assert false;
    } else if !IsRedNode(s.right) {
      if !IsRedNode(s.left) {
        RBKids(s);
        RBNode(Redden(s));
        RBNode(Node(Black, l, p, kp, Redden(s)));
      } else {
        Rem5LeftKept(s);
        Rem6LeftKept(c, l, p, kp, Rem5Left(s));
      }
    } else {
      Rem6LeftKept(c, l, p, kp, s);
    }
  }

  /** balance_black_left rebalances a left subtree that is one black level
      short. */
  lemma BalanceLeftKept(c: Color, l: Tree, p: Ptr, kp: int, s: Tree)
    requires Short(c, l, s)
    ensures BalanceKept(c, s, BalanceLeft(c, l, p, kp, s))
  {
    if IsRedNode(s) {
      BalanceBlackLeftKept(Red, l, p, kp, s.left);
    } else {
      BalanceBlackLeftKept(c, l, p, kp, s);
    }
  }

  lemma Rem5RightKept(s: Tree)
    requires s.Node? && s.color == Black && RB(s) && IsRedNode(s.right) && !IsRedNode(s.left)
    ensures RB(Rem5Right(s)) && BH(Rem5Right(s)) == BH(s)
    ensures Rem5Right(s).color == Black && IsRedNode(Rem5Right(s).left)
  {
    var Node(_, a, x, kx, sr) := s;
    RBKids(s);
    RBKids(sr);
    var Node(_, b, y, ky, c) := sr;
    var n := Node(Red, a, x, kx, b);
    RBNode(n);
    RBNode(Node(Black, n, y, ky, c));
  }

  lemma Rem6RightKept(c: Color, s: Tree, p: Ptr, kp: int, r: Tree)
    requires s.Node? && s.color == Black && RB(r) && RB(s) && IsRedNode(s.left) && BH(s) == BH(r) + 1
    ensures RB(Rem6Right(c, s, p, kp, r)) && Rem6Right(c, s, p, kp, r).color == c
    ensures BH(Rem6Right(c, s, p, kp, r)) == BH(s) + (if c == Black then 1 else 0)
  {
    var Node(_, a, y, ky, b) := s;
    RBKids(s);
    RBKids(a);
    var n := Node(Black, b, p, kp, r);
    RBNode(n);
    RBNode(Blacken(a));
    RBNode(Node(c, Blacken(a), y, ky, n));
  }

  lemma BalanceBlackRightKept(c: Color, s: Tree, p: Ptr, kp: int, r: Tree)
    requires Short(c, r, s) && IsBlackRooted(s)
    ensures BalanceKept(c, s, BalanceBlackRight(c, s, p, kp, r))
  {
    if s.Nil? {
      assert false;
    } else if !IsRedNode(s.left) {
      if !IsRedNode(s.right) {
        RBKids(s);
        RBNode(Redden(s));
        RBNode(Node(Black, Redden(s), p, kp, r));
      } else {
        Rem5RightKept(s);
        Rem6RightKept(c, Rem5Right(s), p, kp, r);
      }
    } else {
      Rem6RightKept(c, s, p, kp, r);
    }
  }

  /** balance_black_right rebalances a right subtree that is one black
      level short. */
  lemma BalanceRightKept(c: Color, s: Tree, p: Ptr, kp: int, r: Tree)
    requires Short(c, r, s)
    ensures BalanceKept(c, s, BalanceRight(c, s, p, kp, r))
  {
    if IsRedNode(s) {
      BalanceBlackRightKept(Red, s.right, p, kp, r);
    } else {
      BalanceBlackRightKept(c, s, p, kp, r);
    }
  }

  /** What each action tells the caller about the subtree d.tree its slot
      holds after the call on t: a leaf is handed back untouched, with its
      colour; a completed deletion keeps the black height; a subtree one
      black level short has a black root. */
  ghost predicate DelKept(t: Tree, d: DelRes) {
    && d.tree.Node?
    && (NoKid(d.action) ==> d.tree == t && t.left.Nil? && t.right.Nil? && (d.action == BlackNoKid <==> t.color == Black))
    && (d.action == Completed ==> RB(d.tree) && BH(d.tree) == BH(t) && (IsRedNode(d.tree) ==> IsRedNode(t)))
    && (d.action == MisOneBlack ==> RB(d.tree) && BH(d.tree) + 1 == BH(t) && IsBlackRooted(d.tree))
  }

  /** The answers find_unlink_fix never gives on a red-black tree. */
  predicate Possible(mode: DelMode, a: DelAction) {
    a != InvalidTree && (mode != Search ==> a != NotFound)
  }

  lemma AfterLeftRB(t: Tree, d: DelRes)
    requires t.Node? && RB(t) && t.left.Node? && DelKept(t.left, d) && d.action != InvalidTree
    ensures DelKept(t, AfterLeft(t, d)) && AfterLeft(t, d).action != InvalidTree
    ensures d.action != NotFound ==> AfterLeft(t, d).action != NotFound
  {
    var Node(c, l, y, ky, r) := t;
    RBKids(t);
    match d.action
    case NotFound =>
    case Completed => RBNode(Node(c, d.tree, y, ky, r));
    case RedNoKid =>
      assert BH(l) == 0 == BH(r);
      RBNode(Node(c, Nil, y, ky, r));
    case BlackNoKid => BalanceLeftKept(c, Nil, y, ky, r);
    case MisOneBlack => BalanceLeftKept(c, d.tree, y, ky, r);
  }

  lemma AfterRightRB(t: Tree, d: DelRes)
    requires t.Node? && RB(t) && t.right.Node? && DelKept(t.right, d) && d.action != InvalidTree
    ensures DelKept(t, AfterRight(t, d)) && AfterRight(t, d).action != InvalidTree
    ensures d.action != NotFound ==> AfterRight(t, d).action != NotFound
  {
    var Node(c, l, y, ky, r) := t;
    RBKids(t);
    match d.action
    case NotFound =>
    case Completed => RBNode(Node(c, l, y, ky, d.tree));
    case RedNoKid =>
      assert BH(r) == 0 == BH(l);
      RBNode(Node(c, l, y, ky, Nil));
    case BlackNoKid => BalanceRightKept(c, l, y, ky, Nil);
    case MisOneBlack => BalanceRightKept(c, l, y, ky, d.tree);
  }

  lemma SuccessorRB(t: Tree, d: DelRes)
    requires t.Node? && RB(t) && t.left.Node? && t.right.Node? && DelKept(t.right, d) && Possible(GoLeft, d.action)
    ensures DelKept(t, Successor(t, d)) && Possible(Search, Successor(t, d).action)
  {
    var Node(c, l, x, kx, r) := t;
    RBKids(t);
    match d.action
    case Completed => RBNode(Node(c, l, d.removed, d.removedKey, d.tree));
    case RedNoKid =>
      assert BH(r) == 0 == BH(l);
      RBNode(Node(c, l, d.removed, d.removedKey, Nil));
    case BlackNoKid => BalanceRightKept(c, l, d.removed, d.removedKey, Nil);
    case MisOneBlack => BalanceRightKept(c, l, d.removed, d.removedKey, d.tree);
  }

  /** On a red-black tree, find_unlink_fix answers as DelKept says and
      never reports an invalid tree; the walks to an end always find one. */
  lemma {:induction false} DelRB(t: Tree, mode: DelMode, k: int)
    requires t.Node? && RB(t)
    decreases t, 1
    ensures DelKept(t, Fuf(t, mode, k)) && Possible(mode, Fuf(t, mode, k).action)
  {
    var rc := StepCmp(t, mode, k);
    if rc == 0 {
      UnlinkRB(t, mode, k);
    } else if rc > 0 {
      if t.left.Node? {
        DelRB(t.left, mode, k);
        AfterLeftRB(t, Fuf(t.left, mode, k));
      }
    } else {
      if t.right.Node? {
        DelRB(t.right, mode, k);
        AfterRightRB(t, Fuf(t.right, mode, k));
      }
    }
  }

  lemma {:induction false} UnlinkRB(t: Tree, mode: DelMode, k: int)
    requires t.Node? && RB(t) && StepCmp(t, mode, k) == 0
    decreases t, 0
    ensures DelKept(t, Unlink(t, mode, k)) && Possible(mode, Unlink(t, mode, k).action)
  {
    var Node(c, l, x, kx, r) := t;
    if l.Nil? && r.Nil? {
    } else if c == Black && r.Nil? {
      RBKids(t);
      RBKids(l);
      RBNode(Blacken(l));
    } else if c == Black && l.Nil? {
      RBKids(t);
      RBKids(r);
      RBNode(Blacken(r));
    } else if l.Node? && r.Node? {
      DelRB(r, GoLeft, k);
      SuccessorRB(t, Fuf(r, GoLeft, k));
    } else {
      assert false;
    }
  }

  // ---------------------------------------------------------------
  // What a deletion by key does to the records and keys
  // ---------------------------------------------------------------

  lemma DropAt<T>(s: seq<T>, i: nat, j: nat)
    requires i < |s| && j + 1 < |s|
    ensures |Drop(s, i)| + 1 == |s|
    ensures Drop(s, i)[j] == s[if j < i then j else j + 1]
  {
  }

  /** Dropping one entry of a sequence without repetition takes exactly that
      record out of its elements. */
  lemma DropDistinct(s: seq<Ptr>, i: nat)
    requires i < |s| && Distinct(s)
    ensures Distinct(Drop(s, i))
    ensures forall y :: y in Drop(s, i) <==> y in s && y != s[i]
  {
    var u := Drop(s, i);
    forall a, b | 0 <= a < |u| && 0 <= b < |u| && u[a] == u[b] ensures a == b {
      DropAt(s, i, a);
      DropAt(s, i, b);
    }
    forall y ensures y in u <==> y in s && y != s[i] {
      if y in u {
        var j :| 0 <= j < |u| && u[j] == y;
        DropAt(s, i, j);
      }
      if y in s && y != s[i] {
        var j :| 0 <= j < |s| && s[j] == y;
        if j < i {
          DropAt(s, i, j);
        } else {
          DropAt(s, i, j - 1);
        }
      }
    }
  }

  /** Dropping one key of a strictly increasing sequence keeps it strictly
      increasing ... */
  lemma DropIncreasing(s: seq<int>, i: nat)
    requires i < |s| && StrictlyIncreasing(s)
    ensures StrictlyIncreasing(Drop(s, i))
  {
    var u := Drop(s, i);
    forall a, b | 0 <= a < b < |u| ensures u[a] < u[b] {
      DropAt(s, i, a);
      DropAt(s, i, b);
    }
  }

  /** ... and takes exactly that key out of its elements. */
  lemma DropKeys(s: seq<int>, i: nat)
    requires i < |s| && StrictlyIncreasing(s)
    ensures (set y | y in Drop(s, i)) == (set y | y in s) - {s[i]}
  {
    var u := Drop(s, i);
    forall y ensures y in u <==> y in s && y != s[i] {
      if y in u {
        var j :| 0 <= j < |u| && u[j] == y;
        DropAt(s, i, j);
      }
      if y in s && y != s[i] {
        var j :| 0 <= j < |s| && s[j] == y;
        if j < i {
          DropAt(s, i, j);
        } else {
          DropAt(s, i, j - 1);
        }
      }
    }
  }

  /** A search tree u that holds the records and keys of the search tree t
      with position i dropped stores t's contents without t's i-th key. */
  lemma DropContents(t: Tree, u: Tree, i: nat)
    requires SearchTree(t) && SearchTree(u) && i < |InOrder(t)| && |Keys(t)| == |InOrder(t)|
    requires InOrder(u) == Drop(InOrder(t), i) && Keys(u) == Drop(Keys(t), i)
    ensures Contents(u) == Contents(t) - {Keys(t)[i]}
  {
    var k := Keys(t)[i];
    var cu, ct := Contents(u), Contents(t) - {k};
    SearchTreeIffSorted(t);
    DropKeyContents(t, u, i);
    forall y | y in cu ensures cu[y] == ct[y] {
      DropValue(t, u, i, y);
    }
  }

  lemma DropKeyContents(t: Tree, u: Tree, i: nat)
    requires StrictlyIncreasing(Keys(t)) && i < |Keys(t)|
    requires Keys(u) == Drop(Keys(t), i)
    ensures KeySet(u) == KeySet(t) - {Keys(t)[i]}
    ensures Contents(u).Keys == Contents(t).Keys - {Keys(t)[i]}
  {
    DropKeys(Keys(t), i);
    KeySetElems(t);
    KeySetElems(u);
    ContentsKeys(t);
    ContentsKeys(u);
  }

  lemma KeySetElems(t: Tree)
    ensures KeySet(t) == set y | y in Keys(t)
  {
    KeySetIsKeys(t);
  }

  lemma DropValue(t: Tree, u: Tree, i: nat, y: int)
    requires SearchTree(t) && SearchTree(u) && i < |InOrder(t)| && |Keys(t)| == |InOrder(t)|
    requires InOrder(u) == Drop(InOrder(t), i) && Keys(u) == Drop(Keys(t), i)
    requires y in Contents(u)
    ensures y in Contents(t) && Contents(u)[y] == Contents(t)[y]
  {
    ContentsKeys(u);
    KeySetIsKeys(u);
    var j :| 0 <= j < |Keys(u)| && Keys(u)[j] == y;
    ContentsIndex(t);
    ContentsIndex(u);
    DropAt(Keys(t), i, j);
    DropAt(InOrder(t), i, j);
  }

  /** The walk to the smallest node of a subtree always ends at one. */
  lemma {:induction false} WalkFinds(t: Tree, k: int)
    requires t.Node?
    decreases t
    ensures Fuf(t, GoLeft, k).action != NotFound
  {
    if t.left.Node? {
      WalkFinds(t.left, k);
    }
  }

  /** A search that answers NOT_FOUND has passed the place of every key the
      tree holds: the key is absent. */
  lemma {:induction false} DelMissing(t: Tree, k: int)
    requires t.Node? && SearchTree(t)
    decreases t
    ensures Fuf(t, Search, k).action == NotFound ==> k !in KeySet(t)
  {
    var rc := StepCmp(t, Search, k);
    if rc == 0 {
      assert Fuf(t, Search, k) == Unlink(t, Search, k);
      if t.left.Node? && t.right.Node? {
        WalkFinds(t.right, k);
        assert Unlink(t, Search, k) == Successor(t, Fuf(t.right, GoLeft, k));
      }
    } else if rc > 0 {
      if t.left.Node? {
        DelMissing(t.left, k);
      }
    } else {
      if t.right.Node? {
        DelMissing(t.right, k);
      }
    }
  }

  /** What find_unlink_fix in search mode does to a valid tree: it finds
      the key exactly when the tree holds it; then the record taken out is
      the one that held the key, and the subtree left behind is a search
      tree with that key and record gone and everything else stored as
      before; otherwise nothing changes. */
  ghost predicate DelOutcome(t: Tree, k: int, d: DelRes) {
    && (Found(d.action) <==> k in KeySet(t))
    && (!Found(d.action) ==> d.action == NotFound && d.tree == t)
    && (Found(d.action) ==> RemovedKey(t, k, d))
  }

  ghost predicate RemovedKey(t: Tree, k: int, d: DelRes) {
    && d.removedKey == k && k in Contents(t) && d.removed == Contents(t)[k]
    && SearchTree(Remaining(d)) && UniqueIds(Remaining(d))
    && KeySet(Remaining(d)) == KeySet(t) - {k}
    && Contents(Remaining(d)) == Contents(t) - {k}
    && IdSet(Remaining(d)) == IdSet(t) - {d.removed}
    && |InOrder(Remaining(d))| + 1 == |InOrder(t)|
  }

  lemma RemovedKeyOf(t: Tree, k: int, d: DelRes, i: nat)
    requires SearchTree(t) && UniqueIds(t) && Found(d.action) && Takes(t, Search, k, d, i)
    ensures RemovedKey(t, k, d)
  {
    var u := Remaining(d);
    assert RemovedAt(t, u, i, d.removed, d.removedKey);
    SearchTreeIffSorted(t);
    SearchTreeIffSorted(u);
    DropIncreasing(Keys(t), i);
    UniqueIdsIffDistinct(t);
    UniqueIdsIffDistinct(u);
    DropDistinct(InOrder(t), i);
    DropContents(t, u, i);
    DropKeyContents(t, u, i);
    ContentsKeys(t);
    ContentsKeys(u);
    ContentsIndex(t);
    IdSetSeq(t);
    IdSetSeq(u);
  }

  lemma IdSetSeq(t: Tree)
    ensures IdSet(t) == set y | y in InOrder(t)
  {
    IdSetIsInOrder(t);
  }

  lemma DelByKey(t: Tree, k: int)
    requires t.Node? && SearchTree(t) && UniqueIds(t) && RB(t)
    ensures DelOutcome(t, k, Fuf(t, Search, k))
  {
    var d := Fuf(t, Search, k);
    var i := DelSeq(t, Search, k);
    DelRB(t, Search, k);
    DelMissing(t, k);
    if Found(d.action) {
      RemovedKeyOf(t, k, d, i);
      KeySetIsKeys(t);
      assert Keys(t)[i] == k;
    }
  }

  /** delete_node on the whole tree: the tree stays a red-black search tree
      with a black root, the key is gone and every other key still maps to
      the record it did; a present key takes exactly its record out, an
      absent one changes nothing. */
  lemma DeleteTreeValid(t: Tree, k: int)
    requires SearchTree(t) && UniqueIds(t) && RB(t) && IsBlackRooted(t)
    ensures SearchTree(DeleteTree(t, k)) && UniqueIds(DeleteTree(t, k))
    ensures RB(DeleteTree(t, k)) && IsBlackRooted(DeleteTree(t, k))
    ensures KeySet(DeleteTree(t, k)) == KeySet(t) - {k}
    ensures Contents(DeleteTree(t, k)) == Contents(t) - {k}
    ensures k in KeySet(t) ==> |InOrder(DeleteTree(t, k))| + 1 == |InOrder(t)|
    ensures k in KeySet(t) ==> k in Contents(t) && IdSet(DeleteTree(t, k)) == IdSet(t) - {Contents(t)[k]}
    ensures k !in KeySet(t) ==> DeleteTree(t, k) == t
  {
    if t.Node? {
      var d := Fuf(t, Search, k);
      DelByKey(t, k);
      DelRB(t, Search, k);
      if !Found(d.action) {
        ContentsKeys(t);
        assert Contents(t) - {k} == Contents(t);
      }
    }
  }

  // ---------------------------------------------------------------
  // Facts the pointer code relies on
  // ---------------------------------------------------------------

  /** The sibling shape balance_black_left needs: a sibling exists, and a
      red one has a left child to hand over in case 2. */
  ghost predicate SiblingLeft(s: Tree) {
    s.Node? && (IsRedNode(s) ==> s.left.Node?)
  }

  ghost predicate SiblingRight(s: Tree) {
    s.Node? && (IsRedNode(s) ==> s.right.Node?)
  }

  lemma ShortShape(c: Color, x: Tree, s: Tree)
    requires Short(c, x, s)
    ensures SiblingLeft(s) && SiblingRight(s)
  {
    if IsRedNode(s) {
      RBKids(s);
    }
  }

  /** Below a node of a red-black tree, a left subtree that comes back one
      black level short (or as a removed black leaf) has a sibling of the
      shape balance_black_left needs. */
  lemma AfterLeftShape(t: Tree, d: DelRes)
    requires t.Node? && RB(t) && t.left.Node? && DelKept(t.left, d)
    requires d.action == BlackNoKid || d.action == MisOneBlack
    ensures SiblingLeft(t.right)
  {
    RBKids(t);
    if d.action == BlackNoKid {
      ShortShape(t.color, Nil, t.right);
    } else {
      ShortShape(t.color, d.tree, t.right);
    }
  }

  lemma AfterRightShape(t: Tree, d: DelRes)
    requires t.Node? && RB(t) && t.right.Node? && DelKept(t.right, d)
    requires d.action == BlackNoKid || d.action == MisOneBlack
    ensures SiblingRight(t.left)
  {
    RBKids(t);
    if d.action == BlackNoKid {
      ShortShape(t.color, Nil, t.left);
    } else {
      ShortShape(t.color, d.tree, t.left);
    }
  }

  /** In a red-black tree the only child of a black node is a red leaf. */
  lemma OnlyChildLeft(t: Tree)
    requires t.Node? && RB(t) && t.color == Black && t.left.Node? && t.right.Nil?
    ensures t.left.color == Red && t.left.left.Nil? && t.left.right.Nil?
  {
    RBKids(t);
    RBKids(t.left);
  }

  lemma OnlyChildRight(t: Tree)
    requires t.Node? && RB(t) && t.color == Black && t.right.Node? && t.left.Nil?
    ensures t.right.color == Red && t.right.left.Nil? && t.right.right.Nil?
  {
    RBKids(t);
    RBKids(t.right);
  }

  /** The record taken out is one of the subtree's, and the subtree left
      behind holds exactly the others, each once. */
  lemma DelIds(t: Tree, mode: DelMode, k: int)
    requires t.Node? && UniqueIds(t)
    ensures !Found(Fuf(t, mode, k).action) ==> Fuf(t, mode, k).tree == t
    ensures Found(Fuf(t, mode, k).action) ==>
      && Fuf(t, mode, k).removed in IdSet(t)
      && UniqueIds(Remaining(Fuf(t, mode, k)))
      && IdSet(Remaining(Fuf(t, mode, k))) == IdSet(t) - {Fuf(t, mode, k).removed}
  {
    var d := Fuf(t, mode, k);
    var i := DelSeq(t, mode, k);
    if Found(d.action) {
      var u := Remaining(d);
      assert RemovedAt(t, u, i, d.removed, d.removedKey);
      UniqueIdsIffDistinct(t);
      UniqueIdsIffDistinct(u);
      DropDistinct(InOrder(t), i);
      IdSetSeq(t);
      IdSetSeq(u);
      IdSetIsInOrder(t);
    }
  }
}
