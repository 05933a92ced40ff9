/** The search for a free run of units, guided by subtree summaries. */
module Gaps {
  import opened Arithmetic
  import opened Summaries

  /** The run [s, s + k) meets none of the blocks. */
  ghost predicate Free(ids: seq<int>, size: Sizes, s: int, k: int)
    requires Sized(ids, size)
  {
    forall i :: 0 <= i < |ids| ==> s + k <= ids[i] || ids[i] + size[ids[i]] <= s
  }

  ghost predicate HasRun(ids: seq<int>, size: Sizes, lo: int, hi: int, k: int)
    requires Sized(ids, size)
  {
    exists s :: lo <= s && s + k <= hi && Free(ids, size, s, k)
  }

  /** No hole, and neither edge of the range, is large enough. */
  ghost predicate Full(ids: seq<int>, size: Sizes, lo: int, hi: int, k: int)
    requires Sized(ids, size)
  {
    if ids == [] then hi - lo < k
    else Hole(ids, size) < k && ids[0] - lo < k && hi - High(ids, size) < k
  }

  lemma {:induction false} FullHasNoRun(ids: seq<int>, size: Sizes, lo: int, hi: int, k: int, s: int)
    requires Placed(ids, size, POOL_LB, U32) && k > 0
    requires Full(ids, size, lo, hi, k) && lo <= s && s + k <= hi
    ensures !Free(ids, size, s, k)
    decreases |ids|
  {
    if ids != [] && ids[0] + size[ids[0]] <= s && |ids| > 1 {
      var tail := ids[1..];
      assert High(tail, size) == High(ids, size);
      assert Free(ids, size, s, k) ==> Free(tail, size, s, k) by {
        assert forall i :: 0 <= i < |tail| ==> tail[i] == ids[i + 1];
      }
      FullHasNoRun(tail, size, ids[0] + size[ids[0]], hi, k, s);
    }
  }

  /** Blocks end at or before x; blocks start at or after x. */
  ghost predicate Ends(ids: seq<int>, size: Sizes, x: int)
  {
    forall i :: 0 <= i < |ids| ==> ids[i] in size && ids[i] + size[ids[i]] <= x
  }

  ghost predicate Starts(ids: seq<int>, x: int)
  {
    forall i :: 0 <= i < |ids| ==> x <= ids[i]
  }

  ghost predicate Below(ids: seq<int>, x: int)
  {
    forall i :: 0 <= i < |ids| ==> ids[i] <= x
  }

  lemma EndsConcat(a: seq<int>, b: seq<int>, size: Sizes, x: int)
    requires Ends(a, size, x) && Ends(b, size, x)
    ensures Ends(a + b, size, x)
  {
  }

  lemma StartsConcat(a: seq<int>, b: seq<int>, x: int)
    requires Starts(a, x) && Starts(b, x)
    ensures Starts(a + b, x)
  {
  }

  ghost predicate Fits(ids: seq<int>, size: Sizes, lb: int, ub: int, k: int)
    requires Sized(ids, size)
  {
    !Full(ids, size, lb, ub, k)
  }

  /** Window: the subtree lies between lb and ub, and unless it is the whole tree a run fits in there.
      LeftEdge: the run [lb, ub) just before the subtree has been chosen.
      RightEdge: the run [lb, ub) just after the subtree has been chosen. */
  datatype Phase = Window | LeftEdge | RightEdge

  ghost predicate Searching(ph: Phase, top: bool, before: seq<int>, ids: seq<int>, after: seq<int>,
                            size: Sizes, lb: int, ub: int, k: int)
  {
    && POOL_LB <= lb && Sized(ids, size) && Ends(before, size, lb) && Starts(after, ub) && k > 0
    && match ph
       case Window => Starts(ids, lb) && Below(ids, ub) && (!top ==> Fits(ids, size, lb, ub, k))
       case LeftEdge =>
         !top && lb + k <= ub && Starts(ids, ub) && (ids != [] ==> ids[0] == ub && Hole(ids, size) < k)
       case RightEdge =>
         !top && lb + k <= ub && Ends(ids, size, lb) && (ids != [] ==> High(ids, size) == lb && Hole(ids, size) < k)
  }

  /** What a node n between its children's blocks a and b knows. */
  ghost predicate Parted(a: seq<int>, n: int, b: seq<int>, size: Sizes)
  {
    && n in size && size[n] > 0 && Ends(a, size, n) && Starts(b, n + size[n]) && Sized(b, size)
    && Placed(a, size, POOL_LB, U32) && Placed(b, size, POOL_LB, U32)
  }

  lemma PlacedParted(a: seq<int>, n: int, b: seq<int>, size: Sizes, end: int)
    requires Placed(a + [n] + b, size, POOL_LB, end) && end < U32
    ensures Parted(a, n, b, size) && Sized(a, size)
  {
    var s := a + [n] + b;
    assert s[|a|] == n;
    assert forall i :: 0 <= i < |a| ==> a[i] == s[i];
    assert forall i :: 0 <= i < |b| ==> b[i] == s[|a| + 1 + i];
  }

  lemma StartsWeaken(a: seq<int>, x: int, y: int)
    requires Starts(a, x) && y <= x
    ensures Starts(a, y)
  {
  }

  ghost function LeftGap(a: seq<int>, n: int, size: Sizes): int
    requires Sized(a, size)
  {
    if a != [] then Max(Hole(a, size), n - High(a, size)) else 0
  }

  lemma GoInnerLeft(ph: Phase, top: bool, before: seq<int>, a: seq<int>, n: int, b: seq<int>, after: seq<int>,
                    size: Sizes, lb: int, ub: int, k: int)
    requires Parted(a, n, b, size) && Sized(a + [n] + b, size)
    requires Searching(ph, top, before, a + [n] + b, after, size, lb, ub, k)
    requires k <= Hole(a + [n] + b, size) && k <= LeftGap(a, n, size)
    ensures Searching(Window, false, before, a, [n] + b + after, size, lb, n, k)
  {
    var s := a + [n] + b;
    assert s[|a|] == n && forall i :: 0 <= i < |a| ==> a[i] == s[i];
    StartsConcat([n], b, n);
    StartsWeaken(after, ub, n);
    StartsConcat([n] + b, after, n);
  }

  lemma GoInnerRight(ph: Phase, top: bool, before: seq<int>, a: seq<int>, n: int, b: seq<int>, after: seq<int>,
                     size: Sizes, lb: int, ub: int, k: int)
    requires Parted(a, n, b, size) && Sized(a + [n] + b, size)
    requires Searching(ph, top, before, a + [n] + b, after, size, lb, ub, k)
    requires k <= Hole(a + [n] + b, size) && k > LeftGap(a, n, size)
    ensures Searching(Window, false, before + a + [n], b, after, size, n + size[n], ub, k)
  {
    hide Hole, Placed;
    var s := a + [n] + b;
    assert s[|a|] == n && forall i :: 0 <= i < |b| ==> b[i] == s[|a| + 1 + i];
    HoleJoin(a, n, b, size);
    assert b != [] ==> High(s, size) == High(b, size);
    EndsWeaken(before, size, lb, n + size[n]);
    EndsWeaken(a, size, n, n + size[n]);
    EndsConcat(before, a, size, n + size[n]);
    EndsConcat(before + a, [n], size, n + size[n]);
  }

  lemma GoOuterLeft(ph: Phase, top: bool, before: seq<int>, a: seq<int>, n: int, b: seq<int>, after: seq<int>,
                    size: Sizes, lb: int, ub: int, k: int)
    requires Parted(a, n, b, size) && Sized(a + [n] + b, size)
    requires Searching(ph, top, before, a + [n] + b, after, size, lb, ub, k)
    requires k > Hole(a + [n] + b, size) && k <= Max(lb, (a + [n] + b)[0]) - lb
    ensures Searching(LeftEdge, false, before, a, [n] + b + after, size, lb, (a + [n] + b)[0], k)
  {
    var s := a + [n] + b;
    assert s[|a|] == n && forall i :: 0 <= i < |a| ==> a[i] == s[i];
    HoleJoin(a, n, b, size);
    PlacedAscends(a, size, s[0]);
    assert s[0] <= n && s[0] <= ub;
    StartsWeaken(b, n + size[n], s[0]);
    StartsConcat([n], b, s[0]);
    StartsWeaken(after, ub, s[0]);
    StartsConcat([n] + b, after, s[0]);
  }

  lemma GoOuterRight(ph: Phase, top: bool, before: seq<int>, a: seq<int>, n: int, b: seq<int>, after: seq<int>,
                     size: Sizes, lb: int, ub: int, k: int)
    requires Parted(a, n, b, size) && Sized(a + [n] + b, size) && Sized(a, size)
    requires Searching(ph, top, before, a + [n] + b, after, size, lb, ub, k)
    requires k > Hole(a + [n] + b, size) && k > Max(lb, (a + [n] + b)[0]) - lb
    requires k <= ub - Min(ub, High(a + [n] + b, size))
    ensures Searching(RightEdge, false, before + a + [n], b, after, size, High(a + [n] + b, size), ub, k)
  {
    hide Hole, Placed;
    var s := a + [n] + b;
    var x := High(s, size);
    assert s[|a|] == n && forall i :: 0 <= i < |b| ==> b[i] == s[|a| + 1 + i];
    HoleJoin(a, n, b, size);
    PlacedEnds(b, size);
    assert n + size[n] <= x && (b != [] ==> High(b, size) == x);
    EndsWeaken(before, size, lb, x);
    EndsWeaken(a, size, n, x);
    EndsConcat(before, a, size, x);
    EndsConcat(before + a, [n], size, x);
  }

  /** The descent can get stuck only at the root, and then there is no run at all. */
  lemma Stuck(ph: Phase, top: bool, before: seq<int>, ids: seq<int>, after: seq<int>, size: Sizes, lb: int, ub: int,
              k: int)
    requires Searching(ph, top, before, ids, after, size, lb, ub, k) && ids != [] && Placed(ids, size, POOL_LB, U32)
    requires k > Hole(ids, size) && k > Max(lb, ids[0]) - lb && k > ub - Min(ub, High(ids, size))
    ensures top && Full(ids, size, lb, ub, k)
  {
    PlacedEnds(ids, size);
  }

  lemma PlacedAscends(a: seq<int>, size: Sizes, x: int)
    requires Placed(a, size, POOL_LB, U32) && (a != [] ==> x == a[0])
    ensures Starts(a, x)
  {
  }

  lemma PlacedEnds(b: seq<int>, size: Sizes)
    requires Placed(b, size, POOL_LB, U32)
    ensures b != [] ==> Ends(b, size, High(b, size)) && b[0] < High(b, size)
  {
    forall i | 0 <= i < |b|
      ensures b[i] + size[b[i]] <= High(b, size)
    {
      assert i < |b| - 1 ==> b[i] + size[b[i]] <= b[|b| - 1];
    }
  }

  lemma EndsWeaken(a: seq<int>, size: Sizes, x: int, y: int)
    requires Ends(a, size, x) && x <= y
    ensures Ends(a, size, y)
  {
  }
}
