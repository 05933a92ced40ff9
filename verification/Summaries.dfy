/** What the summary fields of a subtree should hold: the lowest start, the highest end and the
    largest hole of its blocks, listed in ascending order. */
module Summaries {
  import opened Arithmetic
  import opened Trees
  import opened Links

  datatype Summary = Summary(lb: int, ub: int, gap: int)

  type Sizes = map<int, int>

  /** The blocks [n, n + size[n]) for n in ids are nonempty, ascending and disjoint; they start within
      the pool [lo, end), and all arithmetic on them stays within a 32-bit word. */
  ghost predicate Placed(ids: seq<int>, size: Sizes, lo: int, end: int)
  {
    && (forall i :: 0 <= i < |ids| ==>
      ids[i] in size && lo <= ids[i] < end && 0 < size[ids[i]] && ids[i] + size[ids[i]] < U32)
    && (forall i, j :: 0 <= i < j < |ids| ==> ids[i] + size[ids[i]] <= ids[j])
  }

  ghost predicate Sized(ids: seq<int>, size: Sizes)
  {
    forall i :: 0 <= i < |ids| ==> ids[i] in size
  }

  ghost function High(ids: seq<int>, size: Sizes): int
    requires ids != [] && Sized(ids, size)
  {
    ids[|ids| - 1] + size[ids[|ids| - 1]]
  }

  ghost function Hole(ids: seq<int>, size: Sizes): int
    requires Sized(ids, size)
  {
    if |ids| <= 1 then 0
    else Max(ids[1] - (ids[0] + size[ids[0]]), Hole(ids[1..], size))
  }

  ghost function Describe(ids: seq<int>, size: Sizes): Summary
    requires ids != [] && Sized(ids, size)
  {
    Summary(ids[0], High(ids, size), Hole(ids, size))
  }

  /** The hole between block number i and the next one. */
  ghost function HoleAfter(ids: seq<int>, size: Sizes, i: int): int
    requires Sized(ids, size) && 0 <= i < |ids| - 1
  {
    ids[i + 1] - (ids[i] + size[ids[i]])
  }

  lemma {:induction false} HoleIsLargest(ids: seq<int>, size: Sizes)
    requires Sized(ids, size)
    ensures forall i :: 0 <= i < |ids| - 1 ==> HoleAfter(ids, size, i) <= Hole(ids, size)
    ensures Hole(ids, size) == 0 || exists i :: 0 <= i < |ids| - 1 && HoleAfter(ids, size, i) == Hole(ids, size)
  {
    if |ids| > 1 {
      var tail := ids[1..];
      HoleIsLargest(tail, size);
      assert forall i :: 0 < i < |ids| - 1 ==> HoleAfter(ids, size, i) == HoleAfter(tail, size, i - 1);
      if Hole(tail, size) == Hole(ids, size) != 0 {
        var i :| 0 <= i < |tail| - 1 && HoleAfter(tail, size, i) == Hole(tail, size);
        assert HoleAfter(ids, size, i + 1) == Hole(ids, size);
      } else {
        assert Hole(ids, size) == 0 || HoleAfter(ids, size, 0) == Hole(ids, size);
      }
    }
  }

  /** Describe is the true minimum start, maximum end and largest hole between neighbours. */
  lemma DescribeIsExact(ids: seq<int>, size: Sizes, lo: int, end: int)
    requires ids != [] && Placed(ids, size, lo, end)
    ensures var d := Describe(ids, size);
            && (forall i :: 0 <= i < |ids| ==> d.lb <= ids[i] && ids[i] + size[ids[i]] <= d.ub)
            && d.lb in ids && (exists i :: 0 <= i < |ids| && ids[i] + size[ids[i]] == d.ub)
            && (forall i :: 0 <= i < |ids| - 1 ==> HoleAfter(ids, size, i) <= d.gap)
            && (d.gap == 0 || exists i :: 0 <= i < |ids| - 1 && HoleAfter(ids, size, i) == d.gap)
  {
    HoleIsLargest(ids, size);
    var last := |ids| - 1;
    assert ids[last] + size[ids[last]] == High(ids, size);
  }

  lemma {:induction false} HoleConcat(a: seq<int>, b: seq<int>, size: Sizes)
    requires a != [] && b != [] && Sized(a, size) && Sized(b, size)
    ensures Hole(a + b, size) == Max(Max(Hole(a, size), Hole(b, size)), Max(0, b[0] - High(a, size)))
  {
    var ab := a + b;
    if |a| == 1 {
      assert ab[1..] == b;
      HoleNonNegative(b, size);
    } else {
      assert ab[1..] == a[1..] + b;
      assert High(a[1..], size) == High(a, size);
      HoleConcat(a[1..], b, size);
    }
  }

  lemma {:induction false} HoleNonNegative(a: seq<int>, size: Sizes)
    requires Sized(a, size)
    ensures Hole(a, size) >= 0
  {
    if |a| > 1 {
      HoleNonNegative(a[1..], size);
    }
  }

  // ----- summaries stored at the nodes

  type Sums = map<int, Summary>

  ghost predicate Described(sum: Sums, size: Sizes, n: int, ids: seq<int>)
  {
    n in sum && ids != [] && Sized(ids, size) && sum[n] == Describe(ids, size)
  }

  ghost predicate SumsOk(sum: Sums, size: Sizes, t: Tree)
  {
    t.Node? ==> Described(sum, size, t.id, Inorder(t)) && SumsOk(sum, size, t.left) && SumsOk(sum, size, t.right)
  }

  /** All summaries of the context are right when its hole holds the given blocks. */
  ghost predicate CtxSums(sum: Sums, size: Sizes, c: Ctx, ids: seq<int>)
    decreases c
  {
    c.Frame? ==>
      var j := Join(c.side, ids, c.id, Inorder(c.sib));
      Described(sum, size, c.id, j) && SumsOk(sum, size, c.sib) && CtxSums(sum, size, c.up, j)
  }

  /** The summaries of the sibling trees are right; those on the path itself may be stale. */
  ghost predicate SibSums(sum: Sums, size: Sizes, c: Ctx)
  {
    c.Frame? ==> SumsOk(sum, size, c.sib) && SibSums(sum, size, c.up)
  }

  lemma {:induction false} PlugSums(sum: Sums, size: Sizes, c: Ctx, t: Tree)
    ensures SumsOk(sum, size, Plug(c, t)) <==> SumsOk(sum, size, t) && CtxSums(sum, size, c, Inorder(t))
    ensures SumsOk(sum, size, Plug(c, t)) ==> SibSums(sum, size, c)
    decreases c
  {
    if c.Frame? {
      PlugSums(sum, size, c.up, Build(c.side, t, c.id, c.red, c.sib));
    }
  }

  lemma {:induction false} RecolourSums(sum: Sums, size: Sizes, t: Tree, x: int, r: bool)
    requires SumsOk(sum, size, t)
    ensures SumsOk(sum, size, Recolour(t, x, r))
    decreases t
  {
    if t.Node? {
      RecolourKeeps(t, x, r);
      RecolourSums(sum, size, t.left, x, r);
      RecolourSums(sum, size, t.right, x, r);
    }
  }

  lemma HoleDependsOnSizes(ids: seq<int>, size: Sizes, size': Sizes)
    requires Sized(ids, size) && forall i :: 0 <= i < |ids| ==> ids[i] in size' && size'[ids[i]] == size[ids[i]]
    ensures Sized(ids, size') && Hole(ids, size') == Hole(ids, size)
    ensures ids != [] ==> Describe(ids, size') == Describe(ids, size)
  {
    if |ids| > 1 {
      HoleDependsOnSizes(ids[1..], size, size');
    }
  }

  lemma {:induction false} FrameSums(sum: Sums, sum': Sums, size: Sizes, size': Sizes, t: Tree)
    requires SumsOk(sum, size, t)
    requires forall i :: i in Nodes(t) && i in sum ==> i in sum' && sum'[i] == sum[i]
    requires forall i :: i in Nodes(t) && i in size ==> i in size' && size'[i] == size[i]
    ensures SumsOk(sum', size', t)
    decreases t
  {
    if t.Node? {
      InorderNodes(t);
      var ids := Inorder(t);
      forall i | 0 <= i < |ids| ensures ids[i] in size' && size'[ids[i]] == size[ids[i]] {
        var x := ids[i];
        assert x in Elements(ids) && x in Nodes(t) && x in size;
      }
      HoleDependsOnSizes(Inorder(t), size, size');
      FrameSums(sum, sum', size, size', t.left);
      FrameSums(sum, sum', size, size', t.right);
    }
  }

  lemma {:induction false} FrameSibSums(sum: Sums, sum': Sums, size: Sizes, size': Sizes, c: Ctx)
    requires SibSums(sum, size, c)
    requires forall i :: i in SibNodes(c) && i in sum ==> i in sum' && sum'[i] == sum[i]
    requires forall i :: i in SibNodes(c) && i in size ==> i in size' && size'[i] == size[i]
    ensures SibSums(sum', size', c)
    decreases c
  {
    if c.Frame? {
      FrameSums(sum, sum', size, size', c.sib);
      FrameSibSums(sum, sum', size, size', c.up);
    }
  }

  lemma {:induction false} ComposeSibSums(sum: Sums, size: Sizes, inner: Ctx, outer: Ctx)
    ensures SibSums(sum, size, Compose(inner, outer)) <==> SibSums(sum, size, inner) && SibSums(sum, size, outer)
    ensures SibNodes(Compose(inner, outer)) == SibNodes(inner) + SibNodes(outer)
    ensures PathNodes(Compose(inner, outer)) == PathNodes(inner) + PathNodes(outer)
    decreases inner
  {
    if inner.Frame? {
      ComposeSibSums(sum, size, inner.up, outer);
    }
  }

  lemma {:induction false} FrameCtxSums(sum: Sums, sum': Sums, size: Sizes, c: Ctx, ids: seq<int>)
    requires CtxSums(sum, size, c, ids)
    requires forall i :: i in CtxNodes(c) && i in sum ==> i in sum' && sum'[i] == sum[i]
    ensures CtxSums(sum', size, c, ids)
    decreases c
  {
    if c.Frame? {
      FrameSums(sum, sum', size, size, c.sib);
      FrameCtxSums(sum, sum', size, c.up, Join(c.side, ids, c.id, Inorder(c.sib)));
    }
  }

  /** A subtree's blocks are placed if the whole tree's are. */
  lemma PlacedPart(a: seq<int>, b: seq<int>, c: seq<int>, size: Sizes, lo: int, end: int)
    requires Placed(a + b + c, size, lo, end)
    ensures Placed(b, size, lo, end)
  {
    var s := a + b + c;
    assert forall i :: 0 <= i < |b| ==> b[i] == s[|a| + i];
  }

  /** Leaving one block out keeps the others placed. */
  lemma PlacedWithout(a: seq<int>, n: int, b: seq<int>, size: Sizes, lo: int, end: int)
    requires Placed(a + [n] + b, size, lo, end)
    ensures Placed(a + b, size, lo, end)
  {
    var s, u := a + [n] + b, a + b;
    forall i | 0 <= i < |u|
      ensures u[i] in size && lo <= u[i] < end && 0 < size[u[i]] && u[i] + size[u[i]] < U32
    {
      assert u[i] == s[if i < |a| then i else i + 1];
    }
    forall i, j | 0 <= i < j < |u|
      ensures u[i] + size[u[i]] <= u[j]
    {
      assert u[i] == s[if i < |a| then i else i + 1] && u[j] == s[if j < |a| then j else j + 1];
    }
  }

  lemma PlacedSub(c: Ctx, t: Tree, size: Sizes, lo: int, end: int)
    requires Placed(Inorder(Plug(c, t)), size, lo, end)
    ensures Placed(Inorder(t), size, lo, end)
  {
    PlugInorder(c, t);
    PlacedPart(Before(c), Inorder(t), After(c), size, lo, end);
  }

  // ----- the fix-up

  /** First unit of a pool that may be allocated: the 32-byte pool header fills units 0 and 1. */
  const POOL_LB: int := 2

  function Word(x: int): int { x % U32 }

  predicate Fixable(h: Heap, size: Sizes, sum: Sums, n: int)
  {
    n in h && n in size && (h[n].left == NIL || h[n].left in sum) && (h[n].right == NIL || h[n].right in sum)
  }

  datatype Child = None | Some(sum: Summary)

  function Stored(sum: Sums, n: int): Child
    requires n == NIL || n in sum
  {
    if n == NIL then None else Some(sum[n])
  }

  /** The summary of a block [n, n + size) between two summarised subtrees, in 32-bit arithmetic. */
  function Merge(l: Child, n: int, size: int, r: Child, end: int): Summary
  {
    var stop := Word(n + size);
    var llb := if l.Some? then l.sum.lb else end;
    var rub := if r.Some? then r.sum.ub else POOL_LB;
    var gap := Max(if l.Some? then l.sum.gap else 0, if r.Some? then r.sum.gap else 0);
    var gap1 := Max(gap, if l.Some? then Word(n - l.sum.ub) else 0);
    var gap2 := Max(gap1, if r.Some? then Word(r.sum.lb - stop) else 0);
    Summary(Min(llb, n), Max(rub, stop), gap2)
  }

  /** The summary malloc_fix_invariant computes for n. */
  function Fixed(h: Heap, size: Sizes, sum: Sums, end: int, n: int): Summary
    requires Fixable(h, size, sum, n)
  {
    Merge(Stored(sum, h[n].left), n, size[n], Stored(sum, h[n].right), end)
  }

  lemma HoleJoin(a: seq<int>, n: int, b: seq<int>, size: Sizes)
    requires Sized(a, size) && n in size && Sized(b, size)
    ensures Sized(a + [n] + b, size)
    ensures Hole(a + [n] + b, size) ==
            Max(Max(if a != [] then Max(Hole(a, size), n - High(a, size)) else 0,
                    if b != [] then Max(Hole(b, size), b[0] - (n + size[n])) else 0), 0)
  {
    var an := a + [n];
    HoleNonNegative(a, size);
    HoleNonNegative(b, size);
    if a == [] {
      assert an == [n];
    } else {
      HoleConcat(a, [n], size);
    }
    if b == [] {
      assert an + b == an;
    } else {
      HoleConcat(an, b, size);
    }
  }

  lemma WordOfSmall(x: int)
    requires 0 <= x < U32
    ensures Word(x) == x
  {
  }

  lemma JoinBounds(a: seq<int>, n: int, b: seq<int>, size: Sizes, lo: int, end: int)
    requires Placed(a + [n] + b, size, lo, end)
    ensures Placed(a, size, lo, end) && Placed(b, size, lo, end)
    ensures n in size && lo <= n < end && 0 < size[n] && n + size[n] < U32
    ensures a != [] ==> a[0] < n && lo < High(a, size) <= n
    ensures b != [] ==> n + size[n] <= b[0] && n + size[n] < High(b, size) < U32
    ensures Describe(a + [n] + b, size) ==
            Summary(if a != [] then a[0] else n, if b != [] then High(b, size) else n + size[n],
                    Hole(a + [n] + b, size))
  {
    hide Hole;
    var s := a + [n] + b;
    assert s == [] + a + ([n] + b) && s == a + [n] + b && s == (a + [n]) + b + [];
    PlacedPart([], a, [n] + b, size, lo, end);
    PlacedPart(a + [n], b, [], size, lo, end);
    assert s[|a|] == n;
    if a != [] {
      assert s[0] == a[0] && s[|a| - 1] == a[|a| - 1];
    }
    if b != [] {
      assert s[|a| + 1] == b[0] && s[|s| - 1] == b[|b| - 1];
    }
  }

  ghost function Known(ids: seq<int>, size: Sizes): Child
    requires Sized(ids, size)
  {
    if ids == [] then None else Some(Describe(ids, size))
  }

  /** Merge without wrap-around. */
  lemma MergeNoWrap(l: Child, n: int, size: int, r: Child, end: int)
    requires POOL_LB <= n < end && 0 < size && n + size < U32
    requires l.Some? ==> l.sum.lb < n && 0 <= l.sum.ub <= n && l.sum.gap >= 0
    requires r.Some? ==> n + size <= r.sum.lb && n + size < r.sum.ub && r.sum.lb < U32 && r.sum.gap >= 0
    ensures Merge(l, n, size, r, end) ==
            Summary(if l.Some? then l.sum.lb else n, if r.Some? then r.sum.ub else n + size,
                    Max(Max(if l.Some? then Max(l.sum.gap, n - l.sum.ub) else 0,
                            if r.Some? then Max(r.sum.gap, r.sum.lb - (n + size)) else 0), 0))
  {
    WordOfSmall(n + size);
    if l.Some? {
      WordOfSmall(n - l.sum.ub);
    }
    if r.Some? {
      WordOfSmall(r.sum.lb - (n + size));
    }
  }

  lemma MergeDescribes(a: seq<int>, n: int, b: seq<int>, size: Sizes, end: int)
    requires Placed(a + [n] + b, size, POOL_LB, end) && end < U32 && Sized(a, size) && Sized(b, size)
    ensures n in size && Sized(a + [n] + b, size)
    ensures Merge(Known(a, size), n, size[n], Known(b, size), end) == Describe(a + [n] + b, size)
  {
    JoinBounds(a, n, b, size, POOL_LB, end);
    HoleJoin(a, n, b, size);
    HoleNonNegative(a, size);
    HoleNonNegative(b, size);
    var l, r := Known(a, size), Known(b, size);
    MergeNoWrap(l, n, size[n], r, end);
    var s := Describe(a + [n] + b, size);
    var m := Merge(l, n, size[n], r, end);
    assert s.gap == m.gap;
  }

  /** When the children's summaries are right, so is the one computed from them. */
  lemma FixedDescribes(h: Heap, size: Sizes, sum: Sums, end: int, x: int, p: int, t: Tree)
    requires IsTree(h, x, p, t) && t.Node? && Placed(Inorder(t), size, POOL_LB, end) && end < U32
    requires SumsOk(sum, size, t.left) && SumsOk(sum, size, t.right)
    ensures Fixable(h, size, sum, x) && Sized(Inorder(t), size)
    ensures Fixed(h, size, sum, end, x) == Describe(Inorder(t), size)
  {
    JoinBounds(Inorder(t.left), t.id, Inorder(t.right), size, POOL_LB, end);
    MergeDescribes(Inorder(t.left), t.id, Inorder(t.right), size, end);
  }

  /** Setting the summary of a tree's root right makes the whole tree right. */
  lemma FixedTree(h: Heap, size: Sizes, sum: Sums, end: int, x: int, p: int, t: Tree)
    requires IsTree(h, x, p, t) && t.Node? && Distinct(t) && Placed(Inorder(t), size, POOL_LB, end) && end < U32
    requires SumsOk(sum, size, t.left) && SumsOk(sum, size, t.right)
    ensures Fixable(h, size, sum, x) && SumsOk(sum[x := Fixed(h, size, sum, end, x)], size, t)
  {
    hide Placed, Describe, Hole, High, Fixed;
    FixedDescribes(h, size, sum, end, x, p, t);
    var sum' := sum[x := Fixed(h, size, sum, end, x)];
    FrameSums(sum, sum', size, size, t.left);
    FrameSums(sum, sum', size, size, t.right);
  }
}
