/*********************************************************************
 * The validator (rbt_tests.c): executable checks of the invariant.
 *
 * Each check is proved to answer exactly the property it tests on the
 * tree the records spell out, so a handle satisfying Valid passes all
 * of them.  The recursive counters read the records along data links
 * only; the ghost tree they are given is the termination measure.
 *********************************************************************/
module RbtTests {
  import opened RbtInternal
  import opened RbtTree
  import opened RbtLinks
  import opened RbtTypes
  import opened RbtFirst

  /** count_black_depth: the number of black records on every path down
      from node, or -1 when two paths disagree. */
  function CountBlackDepth(h: Heap, node: Ptr, ghost t: Tree, ghost lo: Ptr, ghost hi: Ptr): (r: int)
    requires node == RootPtr(t) && Linked(h, t, lo, hi)
    ensures r == if Balanced(t) then BH(t) else -1
    decreases t
  {
    if node == NULL then 0
    else
      NodeAt(h, t, lo, hi);
      var r1 := if IsLeftData(h[node].status) then CountBlackDepth(h, h[node].left, t.left, lo, node) else 0;
      var r2 := if IsRightData(h[node].status) then CountBlackDepth(h, h[node].right, t.right, node, hi) else 0;
      if r1 == -1 || r2 == -1 || r1 != r2 then -1
      else if IsBlack(h[node].status) then r1 + 1 else r1
  }

  /** rbttest_black: 0 exactly when the root is black (or absent) and all
      paths hold the same number of black records. */
  function TestBlack(rbt: Rbt, mem: Memory): (rc: int)
    reads rbt, mem
    requires rbt.Threaded(mem)
    ensures rc == if IsBlackRooted(rbt.T) && Balanced(rbt.T) then 0 else -1
  {
    if rbt.root != NULL && (NodeAt(mem.nodes, rbt.T, NULL, NULL); IsRed(mem.nodes[rbt.root].status)) then -1
    else
      var rc := CountBlackDepth(mem.nodes, rbt.root, rbt.T, NULL, NULL);
      if rc < 0 then -1 else 0
  }

  /** count_doublered: the number of red records with a red child; zero
      exactly when no red record has a red child. */
  function CountDoubleRed(h: Heap, node: Ptr, ghost t: Tree, ghost lo: Ptr, ghost hi: Ptr): (r: int)
    requires node == RootPtr(t) && Linked(h, t, lo, hi)
    ensures r >= 0 && (r == 0 <==> NoRedRed(t))
    decreases t
  {
    if node == NULL then 0
    else
      NodeAt(h, t, lo, hi);
      var s := h[node].status;
      var a := if IsRed(s) && IsLeftData(s) && (NodeAt(h, t.left, lo, node); IsRed(h[h[node].left].status)) then 1 else 0;
      var b := if IsRed(s) && IsRightData(s) && (NodeAt(h, t.right, node, hi); IsRed(h[h[node].right].status)) then 1 else 0;
      var cl := if IsLeftData(s) then CountDoubleRed(h, h[node].left, t.left, lo, node) else 0;
      var cr := if IsRightData(s) then CountDoubleRed(h, h[node].right, t.right, node, hi) else 0;
      a + b + cl + cr
  }

  /** rbttest_red: 0 exactly when no red record has a red child. */
  function TestRed(rbt: Rbt, mem: Memory): (rc: int)
    reads rbt, mem
    requires rbt.Threaded(mem)
    ensures rc == if NoRedRed(rbt.T) then 0 else -1
  {
    var rc := CountDoubleRed(mem.nodes, rbt.root, rbt.T, NULL, NULL);
    if rc != 0 then -1 else 0
  }

  /** The int rbttest_first returns for the size_t difference x of two
      counts: the unsigned difference narrowed to 32-bit two's complement.
      Since 2^32 divides 2^64, the wrap-around of the 64-bit subtraction
      leaves the low 32 bits as they are. */
  function NarrowDiff(x: int): (r: int)
    ensures -0x8000_0000 <= r < 0x8000_0000
    ensures r == 0 <==> x % 0x1_0000_0000 == 0
    ensures -0x1_0000_0000 < x < 0x1_0000_0000 ==> (r == 0 <==> x == 0)
  {
    var w := x % 0x1_0000_0000;
    if w < 0x8000_0000 then w else w - 0x1_0000_0000
  }

  /** The records of a linked tree hold the keys of its in-order sequence. */
  lemma {:induction false} LinkedKeys(h: Heap, t: Tree, lo: Ptr, hi: Ptr)
    requires Linked(h, t, lo, hi)
    ensures |Keys(t)| == |InOrder(t)|
    ensures forall i | 0 <= i < |InOrder(t)| :: InOrder(t)[i] in h && h[InOrder(t)[i]].key == Keys(t)[i]
  {
    match t
    case Nil =>
    case Node(_, l, x, k, r) =>
      LinkedKeys(h, l, lo, x);
      LinkedKeys(h, r, x, hi);
      forall i | 0 <= i < |InOrder(t)|
        ensures InOrder(t)[i] in h && h[InOrder(t)[i]].key == Keys(t)[i]
      {
        if i < |InOrder(l)| {
          assert InOrder(t)[i] == InOrder(l)[i] && Keys(t)[i] == Keys(l)[i];
        } else if i == |InOrder(l)| {
          assert InOrder(t)[i] == x && Keys(t)[i] == k;
        } else {
          var j := i - |InOrder(l)| - 1;
          assert InOrder(t)[i] == InOrder(r)[j] && Keys(t)[i] == Keys(r)[j];
        }
      }
  }

  /** The in-order sequence holds each record once, and no NULL. */
  lemma Steppable(rbt: Rbt, mem: Memory)
    requires rbt.Threaded(mem)
    ensures NULL !in InOrder(rbt.T) && Distinct(InOrder(rbt.T))
    ensures forall z :: z in InOrder(rbt.T) <==> z in IdSet(rbt.T)
  {
    LinkedIds(mem.nodes, rbt.T, NULL, NULL);
    IdSetIsInOrder(rbt.T);
    InOrderDistinct(rbt.T);
  }

  /** rbttest_first: the forward walk from rbt_first counts every record;
      the answer is the count minus size, as an int. */
  method TestFirst(rbt: Rbt, mem: Memory) returns (rc: int)
    requires rbt.Threaded(mem)
    ensures rc == NarrowDiff(|InOrder(rbt.T)| - rbt.size)
    ensures |InOrder(rbt.T)| < 0x1_0000_0000 && rbt.size < 0x1_0000_0000 ==> (rc == 0 <==> rbt.size == |InOrder(rbt.T)|)
  {
    ghost var s := InOrder(rbt.T);
    Steppable(rbt, mem);
    var sz: nat := 0;
    var r := First(rbt, mem);
    while r != NULL
      invariant sz <= |s| && (sz < |s| ==> r == s[sz]) && (sz == |s| ==> r == NULL)
      decreases |s| - sz
    {
      ghost var i := sz;
      var r0 := r;
      r := Next(rbt, mem, r);
      assert InOrder(rbt.T)[i] == r0;
      sz := sz + 1;
    }
    rc := NarrowDiff(sz - rbt.size);
  }

  /** rbttest_last: the backward walk from rbt_last counts every record;
      0 exactly when that count is size. */
  method TestLast(rbt: Rbt, mem: Memory) returns (rc: int)
    requires rbt.Threaded(mem)
    ensures rc == if rbt.size == |InOrder(rbt.T)| then 0 else -1
  {
    ghost var s := InOrder(rbt.T);
    Steppable(rbt, mem);
    var sz: nat := 0;
    var r := Last(rbt, mem);
    while r != NULL
      invariant sz <= |s| && (sz < |s| ==> r == s[|s| - 1 - sz]) && (sz == |s| ==> r == NULL)
      decreases |s| - sz
    {
      ghost var i := |s| - 1 - sz;
      var r0 := r;
      r := Prev(rbt, mem, r);
      assert InOrder(rbt.T)[i] == r0;
      sz := sz + 1;
    }
    rc := if sz != rbt.size then -1 else 0;
  }

  /** The number of adjacent pairs in ks that ascend. */
  function Ascents(ks: seq<int>): nat {
    if |ks| < 2 then 0
    else Ascents(ks[..|ks| - 1]) + if ks[|ks| - 2] < ks[|ks| - 1] then 1 else 0
  }

  lemma AscentsStep(ks: seq<int>, j: nat)
    requires j + 1 < |ks|
    ensures Ascents(ks[..j + 2]) == Ascents(ks[..j + 1]) + if ks[j] < ks[j + 1] then 1 else 0
  {
    assert ks[..j + 2][..j + 1] == ks[..j + 1];
  }

  /** Every adjacent pair ascends exactly when the sequence is strictly
      increasing. */
  lemma {:induction false} AscentsAll(ks: seq<int>)
    requires |ks| > 0
    ensures Ascents(ks) <= |ks| - 1
    ensures Ascents(ks) == |ks| - 1 <==> StrictlyIncreasing(ks)
    decreases |ks|
  {
    if |ks| >= 2 {
      var p := ks[..|ks| - 1];
      AscentsAll(p);
      if StrictlyIncreasing(ks) {
        assert StrictlyIncreasing(p) by {
          forall i, j | 0 <= i < j < |p| ensures p[i] < p[j] {
            assert p[i] == ks[i] && p[j] == ks[j];
          }
        }
      }
      if Ascents(ks) == |ks| - 1 {
        assert StrictlyIncreasing(p) && ks[|ks| - 2] < ks[|ks| - 1];
        forall i, j | 0 <= i < j < |ks| ensures ks[i] < ks[j] {
          if j < |ks| - 1 {
            assert p[i] == ks[i] && p[j] == ks[j];
          } else if i < |ks| - 2 {
            assert p[i] == ks[i] && p[|ks| - 2] == ks[|ks| - 2];
          }
        }
      }
    }
  }

  /** rbttest_ascending: the first record plus each record greater than
      the one before it in the walk; 0 exactly when that count is size. */
  method TestAscending(rbt: Rbt, mem: Memory) returns (rc: int)
    requires rbt.Threaded(mem)
    ensures rc == if (if rbt.T.Nil? then 0 else 1 + Ascents(Keys(rbt.T))) == rbt.size then 0 else -1
  {
    ghost var s, ks := InOrder(rbt.T), Keys(rbt.T);
    Steppable(rbt, mem);
    LinkedKeys(mem.nodes, rbt.T, NULL, NULL);
    var sz: nat := 0;
    var r1 := First(rbt, mem);
    if r1 == NULL {
      return if sz != rbt.size then -1 else 0;
    }
    sz := sz + 1;
    var r2 := Next(rbt, mem, r1);
    ghost var j := 0;
    while r2 != NULL
      invariant j < |s| && r1 == s[j] && sz == 1 + Ascents(ks[..j + 1])
      invariant (j + 1 < |s| ==> r2 == s[j + 1]) && (j + 1 == |s| ==> r2 == NULL)
      decreases |s| - j
    {
      assert mem.nodes[r1].key == ks[j] && mem.nodes[r2].key == ks[j + 1];
      var c := Cmp(mem.nodes[r1].key, mem.nodes[r2].key);
      AscentsStep(ks, j);
      if c < 0 {
        sz := sz + 1;
      }
      r1 := r2;
      r2 := Next(rbt, mem, r2);
      j := j + 1;
      assert InOrder(rbt.T)[j] == r1;
    }
    assert ks[..j + 1] == ks;
    rc := if sz != rbt.size then -1 else 0;
  }

  /** The ascending check passes on a counted tree exactly when it is a
      search tree. */
  lemma AscendingIffSearch(t: Tree)
    ensures (if t.Nil? then 0 else 1 + Ascents(Keys(t))) == |InOrder(t)| <==> SearchTree(t)
  {
    LengthsAgree(t);
    SearchTreeIffSorted(t);
    if t.Node? {
      AscentsAll(Keys(t));
    }
  }

  /** rbttest_all: 0 when every check passes, and otherwise the code of
      the first check that fails, in the order black, red, first, last,
      ascending. */
  method TestAll(rbt: Rbt, mem: Memory) returns (rc: int)
    requires rbt.Threaded(mem)
    ensures rc == 0 <==> rbt.Valid(mem)
    ensures rc == -1 <==> !(IsBlackRooted(rbt.T) && Balanced(rbt.T))
    ensures rc == -2 <==> IsBlackRooted(rbt.T) && Balanced(rbt.T) && !NoRedRed(rbt.T)
    ensures rc == -3 <==> IsBlackRooted(rbt.T) && RB(rbt.T) && NarrowDiff(|InOrder(rbt.T)| - rbt.size) != 0
    ensures rc == -4 <==> IsBlackRooted(rbt.T) && RB(rbt.T) && NarrowDiff(|InOrder(rbt.T)| - rbt.size) == 0
                          && rbt.size != |InOrder(rbt.T)|
    ensures rc == -5 <==> IsBlackRooted(rbt.T) && RB(rbt.T) && rbt.size == |InOrder(rbt.T)| && !SearchTree(rbt.T)
  {
    if TestBlack(rbt, mem) != 0 {
      return -1;
    }
    if TestRed(rbt, mem) != 0 {
      return -2;
    }
    var f := TestFirst(rbt, mem);
    if f != 0 {
      return -3;
    }
    var l := TestLast(rbt, mem);
    if l != 0 {
      return -4;
    }
    var a := TestAscending(rbt, mem);
    AscendingIffSearch(rbt.T);
    if a != 0 {
      return -5;
    }
    return 0;
  }
}
