/*********************************************************************
 * First and last node a caller's predicate calls "equal" (rbt_feq.c).
 *
 * The predicate cmp(nodeKey, key) answers below (< 0), equal (0) or
 * above (> 0).  When its answers never step down along the in-order
 * sequence (Monotone), the equal nodes form one contiguous run and the
 * two searches find its ends.
 *********************************************************************/
module RbtFeq {
  import opened RbtInternal
  import opened RbtTree
  import opened RbtLinks
  import opened RbtTypes

  function Sign(x: int): int {
    if x < 0 then -1 else if x > 0 then 1 else 0
  }

  /** The predicate's answers are ordered along the key sequence ks. */
  ghost predicate Monotone(cmp: (int, int) -> int, key: int, ks: seq<int>) {
    forall i, j | 0 <= i <= j < |ks| :: Answer(cmp, key, ks, i) <= Answer(cmp, key, ks, j)
  }

  /** The predicate's answer for the key at position i, as -1, 0 or 1. */
  ghost function Answer(cmp: (int, int) -> int, key: int, ks: seq<int>, i: nat): int
    requires i < |ks|
  {
    Sign(cmp(ks[i], key))
  }

  /** The first record whose key the predicate calls equal, or NULL. */
  ghost function FirstMatch(ids: seq<Ptr>, ks: seq<int>, cmp: (int, int) -> int, key: int): Ptr
    decreases |ids|
  {
    if |ids| == 0 || |ks| == 0 then NULL
    else if cmp(ks[0], key) == 0 then ids[0]
    else FirstMatch(ids[1..], ks[1..], cmp, key)
  }

  /** The last record whose key the predicate calls equal, or NULL. */
  ghost function LastMatch(ids: seq<Ptr>, ks: seq<int>, cmp: (int, int) -> int, key: int): Ptr
    decreases |ids|
  {
    if |ids| == 0 || |ks| == 0 then NULL
    else if cmp(ks[|ks| - 1], key) == 0 then ids[|ids| - 1]
    else LastMatch(ids[..|ids| - 1], ks[..|ks| - 1], cmp, key)
  }

  /** The predicate says below for the first n keys. */
  ghost predicate AllBelow(cmp: (int, int) -> int, key: int, ks: seq<int>, n: int) {
    forall j | 0 <= j < n && j < |ks| :: cmp(ks[j], key) < 0
  }

  /** The predicate says above for the keys from position n on. */
  ghost predicate AllAbove(cmp: (int, int) -> int, key: int, ks: seq<int>, n: int) {
    forall j | n <= j < |ks| && 0 <= j :: cmp(ks[j], key) > 0
  }

  /** FirstMatch is the match at the smallest position. */
  lemma {:induction false} FirstMatchAt(ids: seq<Ptr>, ks: seq<int>, cmp: (int, int) -> int, key: int, i: nat)
    requires |ids| == |ks| && i < |ids| && cmp(ks[i], key) == 0
    requires forall j | 0 <= j < i :: cmp(ks[j], key) != 0
    ensures FirstMatch(ids, ks, cmp, key) == ids[i]
    decreases i
  {
    if i > 0 {
      FirstMatchAt(ids[1..], ks[1..], cmp, key, i - 1);
    }
  }

  /** FirstMatch is NULL when nothing matches. */
  lemma {:induction false} FirstMatchNone(ids: seq<Ptr>, ks: seq<int>, cmp: (int, int) -> int, key: int)
    requires |ids| == |ks|
    requires forall j | 0 <= j < |ks| :: cmp(ks[j], key) != 0
    ensures FirstMatch(ids, ks, cmp, key) == NULL
    decreases |ids|
  {
    if |ids| > 0 {
      FirstMatchNone(ids[1..], ks[1..], cmp, key);
    }
  }

  /** LastMatch is the match at the largest position. */
  lemma {:induction false} LastMatchAt(ids: seq<Ptr>, ks: seq<int>, cmp: (int, int) -> int, key: int, i: nat)
    requires |ids| == |ks| && i < |ids| && cmp(ks[i], key) == 0
    requires forall j | i < j < |ks| :: cmp(ks[j], key) != 0
    ensures LastMatch(ids, ks, cmp, key) == ids[i]
    decreases |ids| - i
  {
    if i < |ids| - 1 {
      LastMatchAt(ids[..|ids| - 1], ks[..|ks| - 1], cmp, key, i);
    }
  }

  /** LastMatch is NULL when nothing matches. */
  lemma {:induction false} LastMatchNone(ids: seq<Ptr>, ks: seq<int>, cmp: (int, int) -> int, key: int)
    requires |ids| == |ks|
    requires forall j | 0 <= j < |ks| :: cmp(ks[j], key) != 0
    ensures LastMatch(ids, ks, cmp, key) == NULL
    decreases |ids|
  {
    if |ids| > 0 {
      LastMatchNone(ids[..|ids| - 1], ks[..|ks| - 1], cmp, key);
    }
  }

  /** Under a monotone predicate the matching positions are contiguous, so
      stepping with rbt_next from the first match to the last visits
      exactly the matches. */
  lemma MatchRun(cmp: (int, int) -> int, key: int, ks: seq<int>, i: nat, j: nat, k: nat)
    requires Monotone(cmp, key, ks) && i <= j <= k < |ks|
    requires cmp(ks[i], key) == 0 && cmp(ks[k], key) == 0
    ensures cmp(ks[j], key) == 0
  {
    assert Answer(cmp, key, ks, i) <= Answer(cmp, key, ks, j) <= Answer(cmp, key, ks, k);
  }

  lemma MonoBelow(cmp: (int, int) -> int, key: int, ks: seq<int>, i: nat)
    requires Monotone(cmp, key, ks) && i < |ks| && cmp(ks[i], key) < 0
    ensures AllBelow(cmp, key, ks, i + 1)
  {
    forall j | 0 <= j <= i ensures cmp(ks[j], key) < 0 {
      assert Answer(cmp, key, ks, j) <= Answer(cmp, key, ks, i);
    }
  }

  lemma MonoAbove(cmp: (int, int) -> int, key: int, ks: seq<int>, i: nat)
    requires Monotone(cmp, key, ks) && i < |ks| && cmp(ks[i], key) > 0
    ensures AllAbove(cmp, key, ks, i)
  {
    forall j | i <= j < |ks| ensures cmp(ks[j], key) > 0 {
      assert Answer(cmp, key, ks, i) <= Answer(cmp, key, ks, j);
    }
  }

  /** The candidate at position i, with everything before it below: the
      first match is the candidate if it is equal, and there is none if it
      is above. */
  lemma FirstFromCandidate(ids: seq<Ptr>, ks: seq<int>, cmp: (int, int) -> int, key: int, i: nat)
    requires |ids| == |ks| && i < |ks| && Monotone(cmp, key, ks) && cmp(ks[i], key) >= 0
    requires AllBelow(cmp, key, ks, i)
    ensures FirstMatch(ids, ks, cmp, key) == if cmp(ks[i], key) == 0 then ids[i] else NULL
  {
    if cmp(ks[i], key) == 0 {
      FirstMatchAt(ids, ks, cmp, key, i);
    } else {
      MonoAbove(cmp, key, ks, i);
      FirstMatchNone(ids, ks, cmp, key);
    }
  }

  lemma LastFromCandidate(ids: seq<Ptr>, ks: seq<int>, cmp: (int, int) -> int, key: int, i: nat)
    requires |ids| == |ks| && i < |ks| && Monotone(cmp, key, ks) && cmp(ks[i], key) <= 0
    requires AllAbove(cmp, key, ks, i + 1)
    ensures LastMatch(ids, ks, cmp, key) == if cmp(ks[i], key) == 0 then ids[i] else NULL
  {
    if cmp(ks[i], key) == 0 {
      LastMatchAt(ids, ks, cmp, key, i);
    } else {
      MonoBelow(cmp, key, ks, i);
      LastMatchNone(ids, ks, cmp, key);
    }
  }

  /** The subtree u of t sits at position b of the in-order records s and
      keys ks, and the records pointed at spell it out. */
  ghost predicate Placed(h: Heap, t: Tree, s: seq<Ptr>, ks: seq<int>, u: Tree, b: nat, lo: Ptr, hi: Ptr) {
    u.Node? && Linked(h, u, lo, hi) && IdSet(u) <= IdSet(t) && Window(u, s, ks, b)
  }

  /** The left subtree of a placed subtree is placed just at its start. */
  lemma PlacedLeft(h: Heap, t: Tree, s: seq<Ptr>, ks: seq<int>, u: Tree, b: nat, lo: Ptr, hi: Ptr)
    requires Placed(h, t, s, ks, u, b, lo, hi) && u.left.Node?
    ensures Placed(h, t, s, ks, u.left, b, lo, u.id) && h[u.id].left == u.left.id
    ensures Size(u.left) < Size(u) && b + Size(u) == b + Size(u.left) + 1 + Size(u.right)
  {
    NodeAt(h, u, lo, hi);
  }

  /** The right subtree of a placed subtree is placed just past its root. */
  lemma PlacedRight(h: Heap, t: Tree, s: seq<Ptr>, ks: seq<int>, u: Tree, b: nat, lo: Ptr, hi: Ptr)
    requires Placed(h, t, s, ks, u, b, lo, hi) && u.right.Node?
    ensures Placed(h, t, s, ks, u.right, b + Size(u.left) + 1, u.id, hi) && h[u.id].right == u.right.id
    ensures Size(u.right) < Size(u) && b + Size(u) == b + Size(u.left) + 1 + Size(u.right)
  {
    NodeAt(h, u, lo, hi);
  }

  /** One inner loop of rbt_feq: from node p, the root of w, step right while
      the predicate says below.  Either a record at or above is found (the
      root of u, on the right spine of w) or the whole of w is below. */
  method ScanRight(mem: Memory, cmp: (int, int) -> int, key: int, p: Ptr, ghost t: Tree, ghost s: seq<Ptr>,
                   ghost ks: seq<int>, ghost w: Tree, ghost a: nat, ghost wlo: Ptr, ghost whi: Ptr)
    returns (q: Ptr, rc: int, found: bool, ghost u: Tree, ghost b: nat, ghost ulo: Ptr, ghost uhi: Ptr)
    requires Placed(mem.nodes, t, s, ks, w, a, wlo, whi) && p == w.id
    requires Monotone(cmp, key, ks) ==> AllBelow(cmp, key, ks, a)
    ensures found ==> Placed(mem.nodes, t, s, ks, u, b, ulo, uhi) && q == u.id
    ensures found ==> a <= b && b + Size(u) == a + Size(w)
    ensures found ==> b + Size(u.left) < |ks| && rc == cmp(ks[b + Size(u.left)], key) >= 0
    ensures found && Monotone(cmp, key, ks) ==> AllBelow(cmp, key, ks, b)
    ensures !found && Monotone(cmp, key, ks) ==> AllBelow(cmp, key, ks, a + Size(w))
  {
    ghost var mono := Monotone(cmp, key, ks);
    q := p;
    u, b, ulo, uhi := w, a, wlo, whi;
    while true
      invariant Placed(mem.nodes, t, s, ks, u, b, ulo, uhi) && q == u.id
      invariant a <= b && b + Size(u) == a + Size(w)
      invariant mono ==> AllBelow(cmp, key, ks, b)
      decreases Size(u)
    {
      NodeAt(mem.nodes, u, ulo, uhi);
      rc := cmp(mem.nodes[q].key, key);
      if rc >= 0 {
        found := true;
        return;
      }
      if mono {
        MonoBelow(cmp, key, ks, b + Size(u.left));
      }
      if IsRightThrd(mem.nodes[q].status) {
        found := false;
        return;
      }
      PlacedRight(mem.nodes, t, s, ks, u, b, ulo, uhi);
      q := mem.nodes[q].right;
      u, b, ulo := u.right, b + Size(u.left) + 1, u.id;
    }
  }

  /** The mirror image, for rbt_leq: step left while the predicate says
      above.  Either a record at or below is found (the root of u, on the
      left spine of w) or the whole of w is above. */
  method ScanLeft(mem: Memory, cmp: (int, int) -> int, key: int, p: Ptr, ghost t: Tree, ghost s: seq<Ptr>,
                  ghost ks: seq<int>, ghost w: Tree, ghost a: nat, ghost wlo: Ptr, ghost whi: Ptr)
    returns (q: Ptr, rc: int, found: bool, ghost u: Tree, ghost ulo: Ptr, ghost uhi: Ptr)
    requires Placed(mem.nodes, t, s, ks, w, a, wlo, whi) && p == w.id
    requires Monotone(cmp, key, ks) ==> AllAbove(cmp, key, ks, a + Size(w))
    ensures found ==> Placed(mem.nodes, t, s, ks, u, a, ulo, uhi) && q == u.id
    ensures found ==> Size(u) <= Size(w)
    ensures found ==> a + Size(u.left) < |ks| && rc == cmp(ks[a + Size(u.left)], key) <= 0
    ensures found && Monotone(cmp, key, ks) ==> AllAbove(cmp, key, ks, a + Size(u))
    ensures !found && Monotone(cmp, key, ks) ==> AllAbove(cmp, key, ks, a)
  {
    ghost var mono := Monotone(cmp, key, ks);
    q := p;
    u, ulo, uhi := w, wlo, whi;
    while true
      invariant Placed(mem.nodes, t, s, ks, u, a, ulo, uhi) && q == u.id
      invariant Size(u) <= Size(w)
      invariant mono ==> AllAbove(cmp, key, ks, a + Size(u))
      decreases Size(u)
    {
      NodeAt(mem.nodes, u, ulo, uhi);
      rc := cmp(mem.nodes[q].key, key);
      if rc <= 0 {
        found := true;
        return;
      }
      if mono {
        MonoAbove(cmp, key, ks, a + Size(u.left));
      }
      if IsLeftThrd(mem.nodes[q].status) {
        found := false;
        return;
      }
      PlacedLeft(mem.nodes, t, s, ks, u, a, ulo, uhi);
      q := mem.nodes[q].left;
      u, uhi := u.left, u.id;
    }
  }

  /** The second phase of rbt_feq: p, the root of v, is a candidate (not
      below); look for a lower one in its left subtree until a thread ends
      the search. */
  method FeqFrom(mem: Memory, cmp: (int, int) -> int, key: int, p: Ptr, rc: int, ghost t: Tree, ghost s: seq<Ptr>,
                 ghost ks: seq<int>, ghost v: Tree, ghost a: nat, ghost vlo: Ptr, ghost vhi: Ptr)
    returns (r: Ptr)
    requires Placed(mem.nodes, t, s, ks, v, a, vlo, vhi) && p == v.id
    requires a + Size(v.left) < |ks| && rc == cmp(ks[a + Size(v.left)], key) >= 0
    requires Monotone(cmp, key, ks) ==> AllBelow(cmp, key, ks, a)
    ensures r != NULL ==> r in IdSet(t) && r in mem.nodes && cmp(mem.nodes[r].key, key) == 0
    ensures Monotone(cmp, key, ks) ==> r == FirstMatch(s, ks, cmp, key)
  {
    ghost var mono := Monotone(cmp, key, ks);
    var p, rc := p, rc;
    ghost var v: Tree, a: nat, vlo: Ptr, vhi: Ptr := v, a, vlo, vhi;
    while true
      invariant Placed(mem.nodes, t, s, ks, v, a, vlo, vhi) && p == v.id
      invariant a + Size(v.left) < |ks| && rc == cmp(ks[a + Size(v.left)], key) >= 0
      invariant mono ==> AllBelow(cmp, key, ks, a)
      decreases Size(v)
    {
      NodeAt(mem.nodes, v, vlo, vhi);
      ghost var ip := a + Size(v.left);
      if IsLeftThrd(mem.nodes[p].status) {
        if mono {
          FirstFromCandidate(s, ks, cmp, key, ip);
        }
        return if rc == 0 then p else NULL;
      }
      // is there a lower candidate in the left subtree?
      var p2: Ptr, rc2: int, found2: bool;
      ghost var w: Tree, a2: nat, wlo: Ptr, whi: Ptr;
      PlacedLeft(mem.nodes, t, s, ks, v, a, vlo, vhi);
      p2, rc2, found2, w, a2, wlo, whi := ScanRight(mem, cmp, key, mem.nodes[p].left, t, s, ks, v.left, a, vlo, v.id);
      if !found2 {
        if mono {
          FirstFromCandidate(s, ks, cmp, key, ip);
        }
        return if rc == 0 then p else NULL;
      }
      p, rc := p2, rc2;
      v, a, vlo, vhi := w, a2, wlo, whi;
    }
  }

  /** rbt_feq: a node the predicate calls equal, or NULL; under a monotone
      predicate the first such node in order. */
  method Feq(rbt: Rbt, mem: Memory, cmp: (int, int) -> int, key: int) returns (r: Ptr)
    requires rbt.Threaded(mem)
    ensures r != NULL ==> r in IdSet(rbt.T) && r in mem.nodes && cmp(mem.nodes[r].key, key) == 0
    ensures Monotone(cmp, key, Keys(rbt.T)) ==> r == FirstMatch(InOrder(rbt.T), Keys(rbt.T), cmp, key)
  {
    if rbt.root == NULL {
      return NULL;
    }
    ghost var t := rbt.T;
    ghost var s, ks := InOrder(t), Keys(t);
    WindowWhole(t);
    SizeIsLength(t);
    // candidate search from the root: the first record not below the key
    var p: Ptr, rc: int, found: bool;
    ghost var v: Tree, a: nat, vlo: Ptr, vhi: Ptr;
    p, rc, found, v, a, vlo, vhi := ScanRight(mem, cmp, key, rbt.root, t, s, ks, t, 0, NULL, NULL);
    if !found {
      if Monotone(cmp, key, ks) {
        FirstMatchNone(s, ks, cmp, key);
      }
      return NULL;
    }
    r := FeqFrom(mem, cmp, key, p, rc, t, s, ks, v, a, vlo, vhi);
  }

  /** The second phase of rbt_leq: p, the root of v, is a candidate (not
      above); look for a higher one in its right subtree until a thread
      ends the search. */
  method LeqFrom(mem: Memory, cmp: (int, int) -> int, key: int, p: Ptr, rc: int, ghost t: Tree, ghost s: seq<Ptr>,
                 ghost ks: seq<int>, ghost v: Tree, ghost a: nat, ghost vlo: Ptr, ghost vhi: Ptr)
    returns (r: Ptr)
    requires Placed(mem.nodes, t, s, ks, v, a, vlo, vhi) && p == v.id
    requires a + Size(v.left) < |ks| && rc == cmp(ks[a + Size(v.left)], key) <= 0
    requires Monotone(cmp, key, ks) ==> AllAbove(cmp, key, ks, a + Size(v))
    ensures r != NULL ==> r in IdSet(t) && r in mem.nodes && cmp(mem.nodes[r].key, key) == 0
    ensures Monotone(cmp, key, ks) ==> r == LastMatch(s, ks, cmp, key)
  {
    ghost var mono := Monotone(cmp, key, ks);
    var p, rc := p, rc;
    ghost var v: Tree, a: nat, vlo: Ptr, vhi: Ptr := v, a, vlo, vhi;
    while true
      invariant Placed(mem.nodes, t, s, ks, v, a, vlo, vhi) && p == v.id
      invariant a + Size(v.left) < |ks| && rc == cmp(ks[a + Size(v.left)], key) <= 0
      invariant mono ==> AllAbove(cmp, key, ks, a + Size(v))
      decreases Size(v)
    {
      NodeAt(mem.nodes, v, vlo, vhi);
      ghost var ip := a + Size(v.left);
      if IsRightThrd(mem.nodes[p].status) {
        if mono {
          LastFromCandidate(s, ks, cmp, key, ip);
        }
        return if rc == 0 then p else NULL;
      }
      // is there a higher candidate in the right subtree?
      ghost var b: nat := ip + 1;
      var p2: Ptr, rc2: int, found2: bool;
      ghost var w: Tree, wlo: Ptr, whi: Ptr;
      PlacedRight(mem.nodes, t, s, ks, v, a, vlo, vhi);
      p2, rc2, found2, w, wlo, whi := ScanLeft(mem, cmp, key, mem.nodes[p].right, t, s, ks, v.right, b, v.id, vhi);
      if !found2 {
        if mono {
          LastFromCandidate(s, ks, cmp, key, ip);
        }
        return if rc == 0 then p else NULL;
      }
      p, rc := p2, rc2;
      v, a, vlo, vhi := w, b, wlo, whi;
    }
  }

  /** rbt_leq: a node the predicate calls equal, or NULL; under a monotone
      predicate the last such node in order. */
  method Leq(rbt: Rbt, mem: Memory, cmp: (int, int) -> int, key: int) returns (r: Ptr)
    requires rbt.Threaded(mem)
    ensures r != NULL ==> r in IdSet(rbt.T) && r in mem.nodes && cmp(mem.nodes[r].key, key) == 0
    ensures Monotone(cmp, key, Keys(rbt.T)) ==> r == LastMatch(InOrder(rbt.T), Keys(rbt.T), cmp, key)
  {
    if rbt.root == NULL {
      return NULL;
    }
    ghost var t := rbt.T;
    ghost var s, ks := InOrder(t), Keys(t);
    WindowWhole(t);
    SizeIsLength(t);
    // candidate search from the root: the last record not above the key
    var p: Ptr, rc: int, found: bool;
    ghost var v: Tree, vlo: Ptr, vhi: Ptr;
    p, rc, found, v, vlo, vhi := ScanLeft(mem, cmp, key, rbt.root, t, s, ks, t, 0, NULL, NULL);
    if !found {
      if Monotone(cmp, key, ks) {
        LastMatchNone(s, ks, cmp, key);
      }
      return NULL;
    }
    r := LeqFrom(mem, cmp, key, p, rc, t, s, ks, v, 0, vlo, vhi);
  }
}
