/** The pool allocator behind malloc, free and realloc.  Units are 16 bytes; every live block starts
    with a 2-unit header that is also its tree node.  Page mapping is an argument that says whether
    the mmap call succeeds. */
module Allocator {
  import opened Arithmetic
  import opened Trees
  import opened RedBlack
  import opened Links
  import opened Summaries
  import opened Gaps
  import opened RbTrees

  const UNIT: int := 16
  const HEADER: int := 32
  const PAGE: int := 4096

  /** Units whose header address 16 * n does not wrap in the 32-bit product of MA_NODE. */
  const ADDRESSABLE: int := 0x1000_0000

  /** Clash stands for a result after which memory is no longer what the tree describes: a header was written
      that is not its block's own, because its 32-bit address wrapped or the block is shorter than a header.
      The model's state is then that before the header was written. */
  datatype Outcome = Panic | Returned(ptr: Ptr) | Clash

  datatype Ptr = Null | ZeroSized | Offset(off: int)

  /** A block's header is eight 32-bit words; the pool's own, an 8-byte mutex, a pointer and four such words, fills the
      units below POOL_LB. */
  lemma HeaderSizes()
    ensures HEADER == 8 * 4 && HEADER % UNIT == 0
    ensures UNIT * (POOL_LB - 1) < 8 + 8 + 4 * 4 <= UNIT * POOL_LB
  {
  }

  /** Units needed for a request, header included, in size_t arithmetic. */
  function Units(bytes: int): int
  {
    var total := (bytes + HEADER) % U64;
    total / UNIT + if total % UNIT != 0 then 1 else 0
  }

  /** The block holds the request after its header, unless adding the header wrapped. */
  lemma PayloadFits(bytes: int)
    requires 0 <= bytes < U64
    ensures UNIT * Units(bytes) - HEADER >= bytes <==> bytes < U64 - HEADER
    ensures bytes < U64 - HEADER ==> UNIT * Units(bytes) - HEADER < bytes + UNIT && Units(bytes) >= 2
  {
  }

  /** The unit a pointer names: C's truncating division, then truncation to 32 bits. */
  function UnitOf(off: int): int
  {
    var diff := off - HEADER;
    Word(if diff >= 0 then diff / UNIT else -((-diff) / UNIT))
  }

  /** The pointer handed out for the block at unit i. */
  function PtrTo(i: int): Ptr
  {
    Offset(UNIT * i + HEADER)
  }

  lemma UnitOfAligned(q: int)
    requires 0 <= q < U32
    ensures UnitOf(UNIT * q) == if q >= 2 then q - 2 else U32 - 2 + q
  {
    assert UNIT * q - HEADER == UNIT * (q - 2);
  }

  lemma PtrArithmetic(off: int, n: int, end: int)
    requires 0 <= n < ADDRESSABLE && n + 3 <= end < U32
    ensures 0 <= off < UNIT * end && off % UNIT == 0 && UnitOf(off) == n <==> off == UNIT * n + HEADER
  {
    if off % UNIT == 0 && 0 <= off < UNIT * end {
      UnitOfAligned(off / UNIT);
    } else if off == UNIT * n + HEADER {
      assert off == UNIT * (n + 2);
    }
    UnitOfAligned(n + 2);
  }

  /** realloc adds the header to the request before malloc adds it again. */
  lemma UnitsOfUnits(bytes: int)
    requires 0 < bytes < U64 - HEADER && Units(bytes) < U32
    ensures 3 <= Units(bytes) && bytes + HEADER < U64 - HEADER && Units(bytes + HEADER) == Units(bytes) + 2
  {
    assert (bytes + HEADER) % UNIT == bytes % UNIT && (bytes + HEADER + HEADER) % UNIT == bytes % UNIT;
    assert (bytes + HEADER + HEADER) / UNIT == (bytes + HEADER) / UNIT + 2;
  }

  /** A block is shorter than a header and one unit exactly when adding the header wraps. */
  lemma ShortExactlyWhenWrapped(bytes: int)
    requires 0 < bytes < U64
    ensures 0 <= Units(bytes) && (Units(bytes) < 3 <==> bytes >= U64 - HEADER)
  {
  }

  /** The byte offset MA_NODE computes for node n. */
  function HeaderOffset(n: int): int
  {
    Word(n * UNIT)
  }

  /** Two header offsets coincide exactly when the units agree modulo 2^28. */
  lemma HeaderOffsetExact(n: int, m: int)
    requires 0 <= n < U32 && 0 <= m < U32
    ensures HeaderOffset(n) == UNIT * n <==> n < ADDRESSABLE
    ensures HeaderOffset(n) == HeaderOffset(m) <==> n % ADDRESSABLE == m % ADDRESSABLE
  {
    var a, b := n / ADDRESSABLE, m / ADDRESSABLE;
    assert n * UNIT == a * U32 + (n % ADDRESSABLE) * UNIT;
    assert m * UNIT == b * U32 + (m % ADDRESSABLE) * UNIT;
    WordOffset(a, (n % ADDRESSABLE) * UNIT);
    WordOffset(b, (m % ADDRESSABLE) * UNIT);
  }

  lemma WordOffset(a: int, x: int)
    requires 0 <= x < U32
    ensures Word(a * U32 + x) == x
  {
  }

  // ----- page growth

  /** The mapped limit after growing to at least hi, in 32-bit arithmetic. */
  function Grown(mmap: int, hi: int): int
  {
    if hi <= mmap then mmap
    else
      var extension := (hi - mmap) * UNIT;
      var padded := extension - extension % PAGE + 4 * PAGE;
      Word(mmap + padded / UNIT)
  }

  /** Growing leaves no wrap-around in the 32-bit limit. */
  predicate GrowthFits(mmap: int, hi: int)
  {
    hi <= mmap || mmap + 256 * ((hi - mmap) / 256) + 1024 < U32
  }

  /** The bytes mapped: whole pages of the part missing, and four more. */
  lemma GrownSum(mmap: int, hi: int)
    requires mmap < hi
    ensures Grown(mmap, hi) == Word(mmap + 256 * ((hi - mmap) / 256) + 1024)
  {
    PaddedPages((hi - mmap) / 256, (hi - mmap) % 256, (hi - mmap) * UNIT);
  }

  lemma PaddedPages(q: int, r: int, extension: int)
    requires 0 <= r < 256 && extension == (256 * q + r) * UNIT
    ensures (extension - extension % PAGE + 4 * PAGE) / UNIT == 256 * q + 1024
  {
    assert extension == PAGE * q + UNIT * r;
    assert extension % PAGE == UNIT * r;
  }

  /** The limit stays a page multiple; it covers hi exactly when it did not wrap. */
  lemma GrownCovers(mmap: int, hi: int)
    requires 0 <= mmap < U32 && mmap % 256 == 0 && hi < U32
    ensures Grown(mmap, hi) % 256 == 0 && 0 <= Grown(mmap, hi) < U32
    ensures hi <= Grown(mmap, hi) <==> GrowthFits(mmap, hi)
    ensures GrowthFits(mmap, hi) ==> mmap <= Grown(mmap, hi)
    ensures hi + 1024 < U32 ==> GrowthFits(mmap, hi)
  {
    if hi > mmap {
      GrownSum(mmap, hi);
      hide Grown;
      PagesAbove(mmap / 256, hi - mmap);
      WordOfSum(mmap + 256 * ((hi - mmap) / 256) + 1024);
    }
  }

  lemma PagesAbove(a: int, d: int)
    ensures (256 * a + 256 * (d / 256) + 1024) % 256 == 0 && d < 256 * (d / 256) + 1024 <= d + 1024
  {
  }

  lemma WordOfSum(g: int)
    requires 0 <= g < 2 * U32
    ensures Word(g) == if g < U32 then g else g - U32
    ensures g % 256 == 0 ==> Word(g) % 256 == 0
  {
  }

  /** Unless the sum wraps, the limit becomes four pages above the start of the page of hi.  The end of the
      pool plays no part: the limit passes it exactly when those four pages do. */
  lemma GrownPage(mmap: int, hi: int)
    requires 0 <= mmap < U32 && mmap % 256 == 0 && 0 <= hi < U32
    ensures mmap < hi && GrowthFits(mmap, hi) ==> Grown(mmap, hi) == 256 * (hi / 256) + 1024
  {
    if mmap < hi {
      GrownSum(mmap, hi);
      hide Grown;
      PageStart(mmap / 256, hi);
    }
  }

  lemma PageStart(a: int, hi: int)
    ensures 256 * a + 256 * ((hi - 256 * a) / 256) == 256 * (hi / 256)
  {
  }

  // ----- blocks in address order

  /** A new block between two groups of blocks. */
  lemma InsertPlaced(a: seq<int>, b: seq<int>, size: Sizes, i: int, k: int, ub: int, end: int)
    requires Placed(a + b, size, POOL_LB, end) && Ends(a, size, i) && Starts(b, ub)
    requires POOL_LB <= i && k > 0 && i + k <= ub <= end < U32
    ensures i !in a && i !in b && Placed(a + [i] + b, size[i := k], POOL_LB, end)
    ensures Free(a + b, size, i, k)
  {
    var s, u := a + b, a + [i] + b;
    assert forall j :: 0 <= j < |a| ==> s[j] == a[j];
    assert forall j :: 0 <= j < |b| ==> s[|a| + j] == b[j];
    forall j | 0 <= j < |a| ensures a[j] < i {
      assert a[j] + size[a[j]] <= i;
    }
    assert forall j :: 0 <= j < |u| ==> u[j] == if j < |a| then s[j] else if j == |a| then i else s[j - 1];
  }

  lemma PlacedResized(ids: seq<int>, size: Sizes, end: int, n: int, k: int)
    requires Placed(ids, size, POOL_LB, end) && 0 < k && n + k < U32
    requires forall m :: m in Elements(ids) && m > n ==> n + k <= m
    ensures Placed(ids, size[n := k], POOL_LB, end)
  {
    forall i, j | 0 <= i < j < |ids|
      ensures ids[i] + size[n := k][ids[i]] <= ids[j]
    {
      assert ids[i] + size[ids[i]] <= ids[j] && ids[j] in Elements(ids);
    }
  }

  /** In ascending order, the blocks above n are those listed after it. */
  lemma BlocksAbove(x: seq<int>, n: int, s: seq<int>, size: Sizes, end: int)
    requires Placed(x + [n] + s, size, POOL_LB, end)
    ensures forall m :: m in Elements(s) <==> m in Elements(x + [n] + s) && m > n
    ensures s != [] ==> s[0] in Elements(s) && s[0] < end && forall m :: m in Elements(s) ==> s[0] <= m
  {
    var u := x + [n] + s;
    assert u[|x|] == n;
    forall j | 0 <= j < |x| ensures x[j] < n {
      assert u[j] == x[j] && u[j] + size[u[j]] <= u[|x|];
    }
    forall j | 0 <= j < |s| ensures s[j] > n {
      assert u[|x| + 1 + j] == s[j] && u[|x|] + size[u[|x|]] <= u[|x| + 1 + j];
    }
    if s != [] {
      forall m | m in Elements(s) ensures s[0] <= m {
        var j :| 0 <= j < |s| && s[j] == m;
        assert u[|x| + 1] == s[0] && u[|x| + 1 + j] == m;
      }
    }
  }

  lemma PlacedWord(ids: seq<int>, size: Sizes, end: int)
    requires Placed(ids, size, POOL_LB, end) && end <= U32
    ensures Placed(ids, size, POOL_LB, U32)
  {
  }

  /** Blocks listed before n are below it, those after it above. */
  lemma PlacedSides(a: seq<int>, n: int, b: seq<int>, size: Sizes, end: int, i: int)
    requires Placed(a + [n] + b, size, POOL_LB, end)
    ensures (i in Elements(a) ==> i < n) && (i in Elements(b) ==> n < i)
  {
    var s := a + [n] + b;
    assert s[|a|] == n;
    assert forall j :: 0 <= j < |a| ==> a[j] == s[j];
    assert forall j :: 0 <= j < |b| ==> b[j] == s[|a| + 1 + j];
  }

  lemma NodePlaced(ids: seq<int>, size: Sizes, end: int, n: int)
    requires Placed(ids, size, POOL_LB, end) && n in Elements(ids)
    ensures n in size && POOL_LB <= n < end && size[n] > 0 && n + size[n] < U32
    ensures forall m :: m in Elements(ids) ==> m in size && (m < n ==> m + size[m] <= n) && (n < m ==> n + size[n] <= m)
  {
    var i :| 0 <= i < |ids| && ids[i] == n;
    forall m | m in Elements(ids)
      ensures m in size && (m < n ==> m + size[m] <= n) && (n < m ==> n + size[n] <= m)
    {
      var j :| 0 <= j < |ids| && ids[j] == m;
      if i < j {
        assert ids[i] + size[ids[i]] <= ids[j];
      } else if j < i {
        assert ids[j] + size[ids[j]] <= ids[i];
      }
    }
  }

  class Pool {
    const tree: RbTree
    var mmap: int
    var data: map<int, int>
    ghost var shape: Tree

    /** An empty pool of end units, of which the first mmap are mapped. */
    constructor (end: int, mmap: int)
      requires POOL_LB <= end < U32 && 0 <= mmap < U32 && mmap % 256 == 0
      ensures Valid() && fresh(tree) && tree.end == end && this.mmap == mmap
      ensures Blocks() == map[]
    {
      tree := new RbTree(true, end);
      this.mmap := mmap;
      data := map[];
      shape := Nil;
    }

    ghost predicate Valid()
      reads this, tree
    {
      && tree.augmented && POOL_LB <= tree.end < U32
      && tree.Is(shape) && IsRedBlack(shape)
      && 0 <= mmap < U32 && mmap % 256 == 0
      && forall n :: n in Nodes(shape) ==> n < ADDRESSABLE && n + 3 <= tree.end && n in tree.size && tree.size[n] >= 3
    }

    /** The live blocks: start unit and length of each. */
    ghost function Blocks(): map<int, int>
      reads this, tree
    {
      map n | n in Nodes(shape) && n in tree.size :: tree.size[n]
    }

    lemma Facts()
      requires Valid()
      ensures Placed(Inorder(shape), tree.size, POOL_LB, tree.end) && SumsOk(tree.sum, tree.size, shape)
      ensures Nodes(shape) == Elements(Inorder(shape)) && NIL !in Nodes(shape)
      ensures tree.At(Top, shape, tree.root, NIL) && tree.Summed(Top, shape)
    {
      PlugInorder(Top, shape);
      InorderNodes(shape);
      if NIL in Nodes(shape) {
        NodePlaced(Inorder(shape), tree.size, tree.end, NIL);
      }
    }

    // ----- looking a block up

    /** One step of the descent towards number i. */
    lemma FindStep(c: Ctx, t: Tree, i: int)
      requires Valid() && Plug(c, t) == shape && t.Node?
      ensures i in Nodes(t) ==> i == t.id || i in if i < t.id then Nodes(t.left) else Nodes(t.right)
    {
      hide IsRedBlack, SumsOk, CtxSums, IsTree, IsCtx, Apart;
      Facts();
      PlacedSub(c, t, tree.size, POOL_LB, tree.end);
      InorderNodes(t.left);
      InorderNodes(t.right);
      hide Plug;
      PlacedSides(Inorder(t.left), t.id, Inorder(t.right), tree.size, tree.end, i);
    }

    /** Finds block i; ub is the start of the block after i's subtree, or the largest 32-bit number. */
    method Find(i: int) returns (found: bool, ub: int, ghost c: Ctx, ghost t: Tree, ghost p: int, ghost steps: nat)
      requires Valid()
      ensures found <==> i in Nodes(shape)
      ensures found ==> tree.At(c, t, i, p) && tree.Summed(c, t) && t.Node? && t.id == i
      ensures Plug(c, t) == shape && (found <==> t.Node?)
      ensures found ==> ub == if After(c) == [] then U32 - 1 else After(c)[0]
      ensures steps == Depth(c) && Pow2(steps) <= (|Inorder(shape)| + 1) * (|Inorder(shape)| + 1)
    {
      hide IsRedBlack, Placed, SumsOk, CtxSums, Inorder, IsTree, IsCtx, Apart, Plug, Valid, RbTree.At, RbTree.Summed;
      Facts();
      PlugTop(shape);
      var n := tree.root;
      ub := U32 - 1;
      c, t, p, steps := Top, shape, NIL, 0;
      tree.CtxParent(c, t, n, p);
      while n != NIL && n != i
        invariant steps == Depth(c)
        invariant tree.At(c, t, n, p) && tree.Summed(c, t) && Plug(c, t) == shape
        invariant i in Nodes(shape) ==> i in Nodes(t)
        invariant n == NIL <==> t.Nil?
        invariant ub == if After(c) == [] then U32 - 1 else After(c)[0]
        decreases t
      {
        FindStep(c, t, i);
        var d := if i < n then Left else Right;
        tree.Descend(c, t, n, p, d);
        if i < n {
          ub := n;
        }
        p := n;
        n := tree.h[n].Kid(d);
        steps := steps + 1;
        c, t := Frame(d, t.id, t.red, t.Far(d), c), t.Near(d);
        tree.CtxParent(c, t, n, p);
      }
      found := n != NIL;
      FindSteps(c, t);
      tree.CtxParent(c, t, n, p);
      PlugNodes(c, t);
    }

    /** No descent takes more than 2 * log2(n + 1) steps. */
    lemma FindSteps(c: Ctx, t: Tree)
      requires Valid() && Plug(c, t) == shape
      ensures Pow2(Depth(c)) <= (|Inorder(shape)| + 1) * (|Inorder(shape)| + 1)
    {
      DepthBound(c, t);
      Pow2Monotone(Depth(c), Height(shape));
      HeightIsLogarithmic(shape);
    }

    lemma PlugTop(t: Tree)
      ensures Plug(Top, t) == t
    {
    }

    // ----- looking for a gap

    /** The largest end of a live block. */
    ghost function TopEnd(): int
      requires Valid()
      reads this, tree
    {
      Facts();
      if Inorder(shape) == [] then POOL_LB else High(Inorder(shape), tree.size)
    }

    lemma EndsBelowTop(n: int)
      requires Valid() && n in Nodes(shape)
      ensures n in tree.size && n + tree.size[n] <= TopEnd() && POOL_LB <= TopEnd()
    {
      Facts();
      var ids := Inorder(shape);
      PlacedWord(ids, tree.size, tree.end);
      PlacedEnds(ids, tree.size);
      var j :| 0 <= j < |ids| && ids[j] == n;
    }

    lemma TopEndBelow(b: int)
      requires Valid() && POOL_LB <= b && forall n :: n in Blocks() ==> n + Blocks()[n] <= b
      ensures TopEnd() <= b
    {
      Facts();
      var ids := Inorder(shape);
      if ids != [] {
        var last := ids[|ids| - 1];
        assert last in Elements(ids);
        assert last in Blocks();
      }
    }

    lemma PartEndsBelowTop(c: Ctx, t: Tree)
      requires Valid() && Plug(c, t) == shape && t.Node?
      ensures t.id in tree.size && t.id + tree.size[t.id] <= TopEnd()
      ensures Sized(Inorder(t), tree.size) && High(Inorder(t), tree.size) <= TopEnd()
    {
      Facts();
      PlugNodes(c, t);
      PlacedSub(c, t, tree.size, POOL_LB, tree.end);
      InorderNodes(t);
      var ids := Inorder(t);
      var last := ids[|ids| - 1];
      assert last in Elements(ids);
      EndsBelowTop(t.id);
      EndsBelowTop(last);
    }

    /** One node of the search: which way to go and the window there, or that no run exists. */
    method GapTurn(n: int, k: int, lb: int, ub: int, ghost c: Ctx, ghost t: Tree, ghost p: int, ghost ph: Phase)
      returns (stuck: bool, side: Side, lb': int, ub': int, ghost ph': Phase)
      requires Valid() && k > 0 && tree.At(c, t, n, p) && tree.Summed(c, t) && Plug(c, t) == shape && t.Node?
      requires Searching(ph, c.Top?, Before(c), Inorder(t), After(c), tree.size, lb, ub, k) && ub <= tree.end
      requires (c.Top? ==> lb == POOL_LB && ub == tree.end) && lb <= TopEnd()
      ensures stuck ==>
              c.Top? && Sized(Inorder(shape), tree.size) && !HasRun(Inorder(shape), tree.size, POOL_LB, tree.end, k)
      ensures var near, c' := Inorder(t.Near(side)), Frame(side, t.id, t.red, t.Far(side), c);
              !stuck ==> lb' <= TopEnd() && ub' <= tree.end &&
                         Searching(ph', false, Before(c'), near, After(c'), tree.size, lb', ub', k)
    {
      hide IsRedBlack, Placed, SumsOk, CtxSums, Inorder, Searching, TopEnd, HasRun, Ends, Starts, Valid, Hole, High;
      hide Before, After, Plug, IsTree, IsCtx, Apart;
      GapView(c, t, n, p);
      var l, r := tree.h[n].left, tree.h[n].right;
      PartEndsBelowTop(c, t);
      stuck, side, lb', ub', ph' := false, Right, lb, ub, Window;
      if k <= tree.sum[n].gap {
        var lgap := if l != NIL then Max(tree.sum[l].gap, n - tree.sum[l].ub) else 0;
        GapInner(ph, c, t, lb, ub, k);
        if k <= lgap {
          side, ub' := Left, n;
        } else {
          side, lb' := Right, n + tree.size[n];
        }
      } else {
        GapOuter(ph, c, t, lb, ub, k);
        if k <= Max(lb, tree.sum[n].lb) - lb {
          side, ub', ph' := Left, tree.sum[n].lb, LeftEdge;
        } else if k <= ub - Min(ub, tree.sum[n].ub) {
          side, lb', ph' := Right, tree.sum[n].ub, RightEdge;
        } else {
          stuck := true;
        }
      }
    }

    method FindGap(k: int) returns (ok: bool, lb: int, ub: int, parent: int, side: Side, ghost c: Ctx, ghost steps: nat)
      requires Valid() && k > 0
      ensures ok ==>
              tree.At(c, Nil, NIL, parent) && tree.Summed(c, Nil) && Plug(c, Nil) == shape &&
                (c.Frame? ==> c.side == side)
      ensures ok ==>
              POOL_LB <= lb <= TopEnd() && ub <= tree.end && Ends(Before(c), tree.size, lb) && Starts(After(c), ub)
      ensures Sized(Inorder(shape), tree.size)
      ensures ok && ub - lb < k ==> !HasRun(Inorder(shape), tree.size, POOL_LB, tree.end, k)
      ensures !ok ==> !HasRun(Inorder(shape), tree.size, POOL_LB, tree.end, k) && c.Top?
      ensures steps == Depth(c) && Pow2(steps) <= (|Inorder(shape)| + 1) * (|Inorder(shape)| + 1)
    {
      hide IsRedBlack, Placed, SumsOk, CtxSums, Inorder, Searching, TopEnd, HasRun, Ends, Starts, Valid, Hole, High;
      hide Before, After, Plug, IsTree, IsCtx, Apart;
      Facts();
      var n := tree.root;
      parent, lb, ub, side := NIL, POOL_LB, tree.end, Right;
      ghost var t, ph := shape, Window;
      c, steps := Top, 0;
      GapStart(k);
      TopEndLow();
      GapTop();
      tree.CtxParent(c, t, n, parent);
      while n != NIL
        invariant tree.At(c, t, n, parent) && tree.Summed(c, t) && Plug(c, t) == shape && (c.Frame? ==> c.side == side)
        invariant Searching(ph, c.Top?, Before(c), Inorder(t), After(c), tree.size, lb, ub, k) && ub <= tree.end
        invariant c.Top? ==> lb == POOL_LB && ub == tree.end
        invariant lb <= TopEnd() && steps == Depth(c)
        invariant n == NIL <==> t.Nil?
        decreases t
      {
        var stuck;
        stuck, side, lb, ub, ph := GapTurn(n, k, lb, ub, c, t, parent, ph);
        if stuck {
          FindSteps(c, t);
          ok := false;
          return;
        }
        tree.Descend(c, t, n, parent, side);
        parent := n;
        steps := steps + 1;
        n := tree.h[n].Kid(side);
        c, t := Frame(side, t.id, t.red, t.Far(side), c), t.Near(side);
        tree.CtxParent(c, t, n, parent);
      }
      ok := true;
      GapEnd(ph, c, lb, ub, k);
      FindSteps(c, Nil);
    }

    lemma TopEndLow()
      requires Valid()
      ensures POOL_LB <= TopEnd()
    {
      Facts();
      var ids := Inorder(shape);
      if ids != [] {
        assert ids[|ids| - 1] in tree.size;
      }
    }

    lemma GapTop()
      requires Valid()
      ensures Before(Top) == [] && After(Top) == [] && Plug(Top, shape) == shape && tree.end < U32 && tree.augmented
      ensures Inorder(Nil) == []
    {
    }

    lemma GapStart(k: int)
      requires Valid() && k > 0
      ensures Searching(Window, true, [], Inorder(shape), [], tree.size, POOL_LB, tree.end, k)
    {
      Facts();
    }

    /** The summaries at n and at its left child. */
    lemma GapView(c: Ctx, t: Tree, n: int, p: int)
      requires Valid() && tree.At(c, t, n, p) && tree.Summed(c, t) && t.Node? && Plug(c, t) == shape
      ensures n == t.id && n in tree.h && n in tree.size && Placed(Inorder(t), tree.size, POOL_LB, tree.end)
      ensures Sized(Inorder(t), tree.size) && Sized(Inorder(t.left), tree.size)
      ensures Described(tree.sum, tree.size, n, Inorder(t))
      ensures var l := tree.h[n].left;
              if t.left.Nil? then l == NIL else l != NIL && Described(tree.sum, tree.size, l, Inorder(t.left))
    {
      PlacedSub(c, t, tree.size, POOL_LB, tree.end);
      PlacedParted(Inorder(t.left), t.id, Inorder(t.right), tree.size, tree.end);
      assert IsTree(tree.h, tree.h[n].left, n, t.left);
      assert SumsOk(tree.sum, tree.size, t.left);
    }

    lemma FrameOrder(c: Ctx, t: Tree, d: Side)
      requires t.Node?
      ensures var c' := Frame(d, t.id, t.red, t.Far(d), c);
              if d == Left then Before(c') == Before(c) && After(c') == [t.id] + Inorder(t.right) + After(c)
              else Before(c') == Before(c) + Inorder(t.left) + [t.id] && After(c') == After(c)
    {
    }

    lemma GapInner(ph: Phase, c: Ctx, t: Tree, lb: int, ub: int, k: int)
      requires Valid() && Plug(c, t) == shape && t.Node? && Placed(Inorder(t), tree.size, POOL_LB, tree.end)
      requires Sized(Inorder(t), tree.size) && Sized(Inorder(t.left), tree.size) && t.id in tree.size
      requires Searching(ph, c.Top?, Before(c), Inorder(t), After(c), tree.size, lb, ub, k) && ub <= tree.end
      requires k <= Hole(Inorder(t), tree.size)
      ensures k <= LeftGap(Inorder(t.left), t.id, tree.size) ==>
              var c' := Frame(Left, t.id, t.red, t.right, c);
              Searching(Window, false, Before(c'), Inorder(t.left), After(c'), tree.size, lb, t.id, k) &&
                t.id <= tree.end
      ensures k > LeftGap(Inorder(t.left), t.id, tree.size) ==>
              var c' := Frame(Right, t.id, t.red, t.left, c);
              Searching(Window, false, Before(c'), Inorder(t.right), After(c'), tree.size, t.id + tree.size[t.id],
                        ub, k)
    {
      hide Searching, Placed, Hole, IsRedBlack, IsTree, IsCtx, SumsOk, CtxSums, Plug, Before, After, Apart, Nodes;
      var a, n, b := Inorder(t.left), t.id, Inorder(t.right);
      PlacedParted(a, n, b, tree.size, tree.end);
      JoinBounds(a, n, b, tree.size, POOL_LB, tree.end);
      FrameOrder(c, t, Left);
      FrameOrder(c, t, Right);
      if k <= LeftGap(a, n, tree.size) {
        GoInnerLeft(ph, c.Top?, Before(c), a, n, b, After(c), tree.size, lb, ub, k);
      } else {
        GoInnerRight(ph, c.Top?, Before(c), a, n, b, After(c), tree.size, lb, ub, k);
      }
    }

    lemma GapOuter(ph: Phase, c: Ctx, t: Tree, lb: int, ub: int, k: int)
      requires Valid() && Plug(c, t) == shape && t.Node? && Placed(Inorder(t), tree.size, POOL_LB, tree.end)
      requires Sized(Inorder(t), tree.size) && Sized(Inorder(t.left), tree.size)
      requires Searching(ph, c.Top?, Before(c), Inorder(t), After(c), tree.size, lb, ub, k) && ub <= tree.end
      requires c.Top? ==> lb == POOL_LB && ub == tree.end
      requires k > Hole(Inorder(t), tree.size)
      ensures var ids := Inorder(t);
              k <= Max(lb, ids[0]) - lb ==>
              var c' := Frame(Left, t.id, t.red, t.right, c);
              Searching(LeftEdge, false, Before(c'), Inorder(t.left), After(c'), tree.size, lb, ids[0], k) &&
                ids[0] <= tree.end
      ensures var ids := Inorder(t);
              k > Max(lb, ids[0]) - lb && k <= ub - Min(ub, High(ids, tree.size)) ==>
              var c' := Frame(Right, t.id, t.red, t.left, c);
              Searching(RightEdge, false, Before(c'), Inorder(t.right), After(c'), tree.size, High(ids, tree.size),
                        ub, k)
      ensures var ids := Inorder(t);
              k > Max(lb, ids[0]) - lb && k > ub - Min(ub, High(ids, tree.size)) ==>
              c.Top? && Sized(Inorder(shape), tree.size) && !HasRun(Inorder(shape), tree.size, POOL_LB, tree.end, k)
    {
      var a, n, b := Inorder(t.left), t.id, Inorder(t.right);
      var ids := a + [n] + b;
      PlacedParted(a, n, b, tree.size, tree.end);
      FrameOrder(c, t, Left);
      FrameOrder(c, t, Right);
      assert ids[0] <= tree.end;
      hide Searching, Placed, Hole, High;
      if k <= Max(lb, ids[0]) - lb {
        GoOuterLeft(ph, c.Top?, Before(c), a, n, b, After(c), tree.size, lb, ub, k);
      } else if k <= ub - Min(ub, High(ids, tree.size)) {
        GoOuterRight(ph, c.Top?, Before(c), a, n, b, After(c), tree.size, lb, ub, k);
      } else {
        GapStuck(ph, c, t, lb, ub, k);
      }
    }

    lemma GapStuck(ph: Phase, c: Ctx, t: Tree, lb: int, ub: int, k: int)
      requires Valid() && Plug(c, t) == shape && t.Node? && Placed(Inorder(t), tree.size, POOL_LB, tree.end)
      requires Sized(Inorder(t), tree.size)
      requires Searching(ph, c.Top?, Before(c), Inorder(t), After(c), tree.size, lb, ub, k)
      requires c.Top? ==> lb == POOL_LB && ub == tree.end
      requires var ids := Inorder(t);
               k > Hole(ids, tree.size) && k > Max(lb, ids[0]) - lb && k > ub - Min(ub, High(ids, tree.size))
      ensures c.Top? && Sized(Inorder(shape), tree.size) && !HasRun(Inorder(shape), tree.size, POOL_LB, tree.end, k)
    {
      Stuck(ph, c.Top?, Before(c), Inorder(t), After(c), tree.size, lb, ub, k);
      NoRunAtAll(k);
    }

    lemma NoRunAtAll(k: int)
      requires Valid() && k > 0
      requires Sized(Inorder(shape), tree.size) && Full(Inorder(shape), tree.size, POOL_LB, tree.end, k)
      ensures !HasRun(Inorder(shape), tree.size, POOL_LB, tree.end, k)
    {
      hide IsRedBlack, SumsOk, CtxSums, IsTree, IsCtx, Hole, High, Inorder;
      Facts();
      PlacedWord(Inorder(shape), tree.size, tree.end);
      hide Placed;
      forall s | POOL_LB <= s && s + k <= tree.end
        ensures !Free(Inorder(shape), tree.size, s, k)
      {
        FullHasNoRun(Inorder(shape), tree.size, POOL_LB, tree.end, k, s);
      }
    }

    lemma GapEnd(ph: Phase, c: Ctx, lb: int, ub: int, k: int)
      requires Valid() && Plug(c, Nil) == shape && k > 0
      requires Searching(ph, c.Top?, Before(c), [], After(c), tree.size, lb, ub, k)
      requires c.Top? ==> lb == POOL_LB && ub == tree.end
      ensures POOL_LB <= lb && Ends(Before(c), tree.size, lb) && Starts(After(c), ub) &&
              Sized(Inorder(shape), tree.size)
      ensures ub - lb < k ==> !HasRun(Inorder(shape), tree.size, POOL_LB, tree.end, k)
    {
      Facts();
      if ub - lb < k {
        assert c.Top?;
        NoRunAtAll(k);
      }
    }

    // ----- malloc

    /** Whatever start malloc may choose, MA_NODE can address its header; enough to exclude a clash. */
    ghost predicate Addressable()
      requires Valid()
      reads this, tree
    {
      tree.end <= ADDRESSABLE || TopEnd() < ADDRESSABLE
    }

    /** All live blocks lie below the mapped limit. */
    ghost predicate Mapped()
      reads this, tree
    {
      forall n :: n in Blocks() ==> n + Blocks()[n] <= mmap
    }

    /** All live blocks lie inside the pool. */
    ghost predicate InBounds()
      reads this, tree
    {
      forall n :: n in Blocks() ==> n + Blocks()[n] <= tree.end
    }

    /** k units fit somewhere between the live blocks. */
    ghost predicate HasRoom(k: int)
      requires Valid()
      reads this, tree
    {
      Facts();
      HasRun(Inorder(shape), tree.size, POOL_LB, tree.end, k)
    }

    /** [i, i + k) meets no live block. */
    ghost predicate Vacant(i: int, k: int)
      reads this, tree
    {
      forall n :: n in Blocks() ==> i + k <= n || n + Blocks()[n] <= i
    }

    /** k units fit at a place, no higher than the used part, that the mapping does not reach. */
    ghost predicate UnmappedPlace(k: int)
      requires Valid()
      reads this, tree
    {
      exists s :: POOL_LB <= s <= TopEnd() && s + k <= tree.end && Vacant(s, k) && mmap < s + k
    }

    method MemGrow(hi: int, mapOk: bool) returns (ok: bool)
      requires 0 <= mmap < U32 && mmap % 256 == 0 && hi < U32
      modifies this`mmap
      ensures ok <==> hi <= old(mmap) || mapOk
      ensures mmap == if ok then Grown(old(mmap), hi) else old(mmap)
      ensures ok && old(mmap) < hi && GrowthFits(old(mmap), hi) ==>
              (tree.end < mmap <==> tree.end < 256 * (hi / 256) + 1024)
    {
      if 0 <= hi {
        GrownPage(mmap, hi);
      }
      if hi <= mmap {
        return true;
      }
      var extension := (hi - mmap) * UNIT;
      extension := extension - extension % PAGE;
      extension := extension + 4 * PAGE;
      if !mapOk {
        return false;
      }
      mmap := Word(mmap + extension / UNIT);
      ok := true;
    }

    /** Chooses the start of k units, and makes them a block unless their header would clash. */
    method AllocUnits(k: int, mapOk: bool) returns (i: int, clash: bool)
      requires Valid() && 1 <= k
      modifies this`mmap, this`shape, tree
      ensures Valid() && data == old(data)
      ensures i == NIL ==> mmap == old(mmap)
      ensures i == NIL || clash ==> Blocks() == old(Blocks()) && shape == old(shape) && tree.size == old(tree.size)
      ensures !old(HasRoom(k)) ==> i == NIL
      ensures i == NIL && old(HasRoom(k)) ==> !mapOk && old(UnmappedPlace(k))
      ensures clash <==> i != NIL && (k < 3 || i >= ADDRESSABLE)
      ensures i != NIL ==>
              && POOL_LB <= i <= old(TopEnd()) && i + k <= tree.end && old(Vacant(i, k)) && i !in old(Blocks())
              && mmap == Grown(old(mmap), i + k) && (i + k <= old(mmap) || mapOk)
      ensures i != NIL && !clash ==> Blocks() == old(Blocks())[i := k]
    {
      hide Placed, Searching, SumsOk, CtxSums, IsRedBlack, Inorder, Plug, HasRun, Ends, Starts, Free, Vacant, TopEnd;
      hide IsTree, IsCtx, Apart, Nodes, CtxNodes, Before, After, Word, Grown;
      var ok, lb, ub, parent, side;
      ghost var c;
      ghost var steps;
      ok, lb, ub, parent, side, c, steps := FindGap(k);
      if !ok {
        return NIL, false;
      }
      if ub - lb < k {
        return NIL, false;
      }
      NewBlock(c, lb, ub, k);
      InsertedNodes(c, lb);
      GrownCovers(mmap, lb + k);
      var grown := MemGrow(lb + k, mapOk);
      if !grown {
        assert UnmappedPlace(k);
        return NIL, false;
      }
      i := lb;
      if k < 3 || i >= ADDRESSABLE {
        return i, true;
      }
      clash := false;
      ghost var nodes, size := Nodes(shape), tree.size;
      shape := tree.Insert(i, parent, side, k, c);
      InorderNodes(shape);
      assert Nodes(shape) == nodes + {i} && tree.size == size[i := k];
    }

    lemma InsertedNodes(c: Ctx, i: int)
      requires Valid() && Inorder(shape) == Before(c) + After(c)
      ensures Elements(Before(c) + [i] + After(c)) == Nodes(shape) + {i}
    {
      InorderNodes(shape);
    }

    lemma NewBlock(c: Ctx, i: int, ub: int, k: int)
      requires Valid() && Plug(c, Nil) == shape && Apart(c, Nil) && k > 0 && i + k <= ub <= tree.end
      requires POOL_LB <= i && Ends(Before(c), tree.size, i) && Starts(After(c), ub)
      ensures i !in CtxNodes(c) && i !in Nodes(shape)
      ensures Placed(Before(c) + [i] + After(c), tree.size[i := k], POOL_LB, tree.end)
      ensures Vacant(i, k) && HasRoom(k)
      ensures Inorder(shape) == Before(c) + After(c)
    {
      hide Placed, Ends, Starts, IsRedBlack, SumsOk, CtxSums, Plug, Apart, Before, After, IsTree, IsCtx, HasRun;
      Facts();
      PlugInorder(c, Nil);
      assert Before(c) + [] + After(c) == Before(c) + After(c);
      InsertPlaced(Before(c), After(c), tree.size, i, k, ub, tree.end);
      PlugNodes(c, Nil);
      hide Inorder, Free, Vacant, HasRoom;
      FreeIsVacant(i, k);
      RunAt(i, k);
    }

    lemma RunAt(i: int, k: int)
      requires Valid() && Sized(Inorder(shape), tree.size) && Free(Inorder(shape), tree.size, i, k)
      requires POOL_LB <= i && i + k <= tree.end
      ensures HasRoom(k)
    {
    }

    lemma FreeIsVacant(i: int, k: int)
      requires Valid() && Sized(Inorder(shape), tree.size) && Free(Inorder(shape), tree.size, i, k)
      ensures Vacant(i, k)
    {
      Facts();
      var ids := Inorder(shape);
      forall n | n in Blocks() ensures i + k <= n || n + Blocks()[n] <= i {
        var j :| 0 <= j < |ids| && ids[j] == n;
      }
    }

    predicate BadPtr(off: int)
      reads this, tree
    {
      off < 0 || off >= UNIT * tree.end || off % UNIT != 0
    }

    lemma PtrNamesBlock(off: int, n: int)
      requires Valid() && n in Nodes(shape)
      ensures !BadPtr(off) && UnitOf(off) == n <==> off == UNIT * n + HEADER
    {
      Facts();
      NodePlaced(Inorder(shape), tree.size, tree.end, n);
      PtrArithmetic(off, n, tree.end);
    }

    /** Stops managing block n, whose place in the tree is known. */
    method RemoveBlock(n: int, ghost c: Ctx, ghost t: Tree, ghost p: int)
      requires Valid() && tree.At(c, t, n, p) && tree.Summed(c, t) && t.Node? && Plug(c, t) == shape && t.id == n
      modifies this`shape, tree
      ensures Valid() && Blocks() == old(Blocks()) - {n} && n in old(Blocks())
      ensures tree.size == old(tree.size)
    {
      hide IsRedBlack, Plug, Inorder, Before, After, Placed, SumsOk, CtxSums;
      ghost var nodes := Nodes(shape);
      RemovedNodes(c, t);
      shape := tree.Remove(n, c, t, p);
      InorderNodes(shape);
      assert Nodes(shape) == nodes - {n};
    }

    lemma RemovedNodes(c: Ctx, t: Tree)
      requires Valid() && t.Node? && Plug(c, t) == shape
      ensures Elements((Before(c) + Inorder(t.left)) + (Inorder(t.right) + After(c))) == Nodes(shape) - {t.id}
      ensures t.id in Nodes(shape)
    {
      hide Placed, SumsOk, IsRedBlack, Plug, NoDup, Before, After, IsTree, IsCtx, CtxSums, Elements;
      Facts();
      DistinctInorder(shape);
      PlugInorder(c, t);
      var x, y := Before(c) + Inorder(t.left), Inorder(t.right) + After(c);
      assert Inorder(t) == Inorder(t.left) + [t.id] + Inorder(t.right);
      hide Inorder;
      RegroupRemove(Before(c), Inorder(t.left), t.id, Inorder(t.right), After(c));
      NoDupJoin(x, t.id, y);
      ElementsWithout(x, t.id, y);
    }

    /** Releases a block.  The source panics instead when the pointer is not one malloc returned. */
    method Release(ptr: Ptr) returns (ok: bool)
      requires Valid()
      modifies this`shape, tree
      ensures Valid() && data == old(data) && mmap == old(mmap)
      ensures ok <==> !ptr.Offset? || exists n :: n in old(Blocks()) && ptr == PtrTo(n)
      ensures !ptr.Offset? || !ok ==> Blocks() == old(Blocks())
      ensures ptr.Offset? && ok ==> UnitOf(ptr.off) in old(Blocks()) && ptr == PtrTo(UnitOf(ptr.off))
      ensures ptr.Offset? && ok ==> Blocks() == old(Blocks()) - {UnitOf(ptr.off)}
    {
      if ptr.Null? || ptr.ZeroSized? {
        return true;
      }
      if BadPtr(ptr.off) {
        BadPtrIsDead(ptr.off);
        return false;
      }
      var i := UnitOf(ptr.off);
      var ub;
      ghost var c, t, p, steps;
      GoodPtr(ptr.off);
      ok, ub, c, t, p, steps := Find(i);
      if ok {
        RemoveBlock(i, c, t, p);
      }
    }

    lemma GoodPtr(off: int)
      requires Valid() && !BadPtr(off)
      ensures UnitOf(off) in Nodes(shape) <==> exists n :: n in Blocks() && Offset(off) == PtrTo(n)
      ensures UnitOf(off) in Nodes(shape) ==> Offset(off) == PtrTo(UnitOf(off)) && UnitOf(off) in Blocks()
    {
      if UnitOf(off) in Nodes(shape) {
        PtrNamesBlock(off, UnitOf(off));
        assert UnitOf(off) in Blocks() && Offset(off) == PtrTo(UnitOf(off));
      }
      forall n | n in Blocks() && Offset(off) == PtrTo(n) ensures UnitOf(off) == n {
        PtrNamesBlock(off, n);
      }
    }

    lemma BadPtrIsDead(off: int)
      requires Valid() && BadPtr(off)
      ensures forall n :: n in Blocks() ==> Offset(off) != PtrTo(n)
    {
      forall n | n in Blocks() ensures Offset(off) != PtrTo(n) {
        PtrNamesBlock(off, n);
      }
    }

    /** ptr names the only new block; it lies in the pool, apart from every other block. */
    static ghost predicate Added(ptr: Ptr, k: int, old_: map<int, int>, new_: map<int, int>, end: int)
      requires ptr.Offset?
    {
      var i := UnitOf(ptr.off);
      && ptr == PtrTo(i) && i !in old_ && new_ == old_[i := k] && POOL_LB <= i && i + k <= end
      && forall n :: n in old_ ==> i + k <= n || n + old_[n] <= i
    }

    static lemma AddedBlock(ptr: Ptr, k: int, old_: map<int, int>, new_: map<int, int>, end: int)
      requires ptr.Offset? && Added(ptr, k, old_, new_, end)
      ensures UnitOf(ptr.off) in new_ && new_[UnitOf(ptr.off)] == k
    {
    }

    /** After a change that gives block i length k and grows the mapping for it. */
    lemma MappedAfter(i: int, k: int, old_: map<int, int>, mmap0: int)
      requires 0 <= mmap0 < U32 && mmap0 % 256 == 0 && i + k < U32 && mmap == Grown(mmap0, i + k)
      requires forall n :: n in old_ ==> n + old_[n] <= mmap0
      requires i in Blocks() && Blocks()[i] == k &&
               forall n :: n in Blocks() && n != i ==> n in old_ && Blocks()[n] == old_[n]
      ensures Mapped() <==> GrowthFits(mmap0, i + k)
    {
      GrownCovers(mmap0, i + k);
    }

    /** The chosen place for k units has a header that MA_NODE cannot address. */
    ghost predicate HighPlace(k: int)
      requires Valid()
      reads this, tree
    {
      exists i :: ADDRESSABLE <= i <= TopEnd() && i + k <= tree.end && Vacant(i, k)
    }

    /** malloc: the result says exactly when allocation fails; on success one block is added and no
        other changes.  It clashes only for a request that wraps when its header is added, or when the place
        chosen for the block starts at unit 2^28 or above. */
    method Malloc(bytes: int, mapOk: bool) returns (ptr: Ptr, clash: bool)
      requires Valid() && 0 <= bytes < U64
      modifies this`mmap, this`shape, tree
      ensures Valid() && data == old(data)
      ensures bytes == 0 <==> ptr.ZeroSized?
      ensures !ptr.Offset? ==> Blocks() == old(Blocks()) && tree.size == old(tree.size) && shape == old(shape)
      ensures !ptr.Offset? && !clash ==> mmap == old(mmap)
      ensures clash ==> ptr.Null? && (bytes >= U64 - HEADER || old(HighPlace(Units(bytes))))
      ensures bytes > 0 && (Units(bytes) >= U32 || !old(HasRoom(Units(bytes)))) ==> ptr.Null?
      ensures 0 < bytes < U64 - HEADER && (Units(bytes) >= U32 || !old(HasRoom(Units(bytes)))) ==> !clash
      ensures bytes > 0 && Units(bytes) < U32 && old(HasRoom(Units(bytes))) && ptr.Null? && !clash ==>
              !mapOk && old(UnmappedPlace(Units(bytes)))
      ensures ptr.Offset? ==>
              Added(ptr, Units(bytes), old(Blocks()), Blocks(), tree.end) && UnitOf(ptr.off) <= old(TopEnd())
      ensures ptr.Offset? ==> mmap == Grown(old(mmap), UnitOf(ptr.off) + Units(bytes))
      ensures ptr.Offset? ==> UnitOf(ptr.off) + Units(bytes) <= old(mmap) || mapOk
      ensures ptr.Offset? && old(Mapped()) ==> (Mapped() <==> GrowthFits(old(mmap), UnitOf(ptr.off) + Units(bytes)))
      ensures old(InBounds()) ==> InBounds()
    {
      hide IsRedBlack, Placed, SumsOk, CtxSums, IsTree, IsCtx, Apart, Inorder, Plug, Nodes, Units, HasRoom;
      hide Addressable, Word, TopEnd;
      if bytes == 0 {
        return ZeroSized, false;
      }
      var size128 := Units(bytes);
      ShortExactlyWhenWrapped(bytes);
      if size128 > U32 - 1 {
        return Null, false;
      }
      if size128 == 0 {
        return Null, true;
      }
      var i;
      i, clash := AllocUnits(size128, mapOk);
      if i == NIL || clash {
        return Null, clash;
      }
      UnitOfAligned(i + 2);
      ptr := Offset(UNIT * i + HEADER);
      if old(Mapped()) {
        MappedAfter(i, size128, old(Blocks()), old(mmap));
      }
    }

    // ----- realloc

    /** The block at i can be k units long where it stands. */
    ghost predicate RoomInPlace(i: int, k: int)
      reads this, tree
    {
      i + k <= U32 - 1 && forall m :: m in Blocks() && m > i ==> i + k <= m
    }

    /** The successor's start, found from the right child's summary or from the path. */
    method Ceiling(n: int, ub0: int, ghost c: Ctx, ghost t: Tree, ghost p: int) returns (ub: int)
      requires Valid() && tree.At(c, t, n, p) && tree.Summed(c, t) && t.Node? && Plug(c, t) == shape && t.id == n
      requires ub0 == if After(c) == [] then U32 - 1 else After(c)[0]
      ensures forall k :: k > 0 ==> (n + k <= ub <==> RoomInPlace(n, k))
    {
      hide Placed, SumsOk, CtxSums, IsRedBlack, RoomInPlace, Plug, Before, After;
      RightView(c, t, n, p);
      var r := tree.h[n].right;
      ub := if r != NIL then tree.sum[r].lb else ub0;
      forall k | k > 0 ensures n + k <= ub <==> RoomInPlace(n, k) {
        CeilingMeaning(c, t, ub, k);
      }
    }

    lemma RightView(c: Ctx, t: Tree, n: int, p: int)
      requires Valid() && tree.At(c, t, n, p) && tree.Summed(c, t) && t.Node?
      ensures n in tree.h
      ensures var r := tree.h[n].right;
              if t.right.Nil? then r == NIL else r != NIL && r in tree.sum && tree.sum[r].lb == Inorder(t.right)[0]
    {
      assert IsTree(tree.h, tree.h[n].right, n, t.right);
      assert SumsOk(tree.sum, tree.size, t.right);
    }

    lemma CeilingMeaning(c: Ctx, t: Tree, ub: int, k: int)
      requires Valid() && t.Node? && Plug(c, t) == shape && k > 0
      requires var s := Inorder(t.right) + After(c); ub == if s == [] then U32 - 1 else s[0]
      ensures t.id + k <= ub <==> RoomInPlace(t.id, k)
    {
      hide Placed, SumsOk, CtxSums, IsRedBlack, Plug, Before, After, IsTree, IsCtx;
      Facts();
      PlugInorder(c, t);
      assert Inorder(t) == Inorder(t.left) + [t.id] + Inorder(t.right);
      hide Inorder;
      var x, s := Before(c) + Inorder(t.left), Inorder(t.right) + After(c);
      RegroupRemove(Before(c), Inorder(t.left), t.id, Inorder(t.right), After(c));
      BlocksAbove(x, t.id, s, tree.size, tree.end);
      assert forall m :: m in Elements(s) <==> m in Blocks() && m > t.id;
      if s != [] {
        assert s[0] in Blocks();
      }
    }

    method ResizeBlock(n: int, k: int, ghost c: Ctx, ghost t: Tree, ghost p: int)
      requires Valid() && tree.At(c, t, n, p) && tree.Summed(c, t) && t.Node? && Plug(c, t) == shape && t.id == n
      requires RoomInPlace(n, k) && 3 <= k
      modifies tree
      ensures Valid() && n in old(Blocks()) && Blocks() == old(Blocks())[n := k]
    {
      hide Placed, SumsOk, CtxSums, IsRedBlack, Plug, IsTree, IsCtx, Inorder, RoomInPlace;
      PlugNodes(c, t);
      assert n in Nodes(t);
      ResizePlaced(n, k);
      tree.Resize(n, k, c, t, p);
    }

    lemma ResizePlaced(n: int, k: int)
      requires Valid() && n in Nodes(shape) && RoomInPlace(n, k) && 3 <= k
      ensures Placed(Inorder(shape), tree.size[n := k], POOL_LB, tree.end)
    {
      hide SumsOk, CtxSums, IsRedBlack, IsTree, IsCtx, Placed;
      Facts();
      var ids := Inorder(shape);
      forall m | m in Elements(ids) && m > n ensures n + k <= m {
        NodePlaced(ids, tree.size, tree.end, m);
        assert m in Blocks();
      }
      PlacedResized(ids, tree.size, tree.end, n, k);
    }

    /** What a unit of payload memory holds. */
    static function Peek(d: map<int, int>, u: int): int
    {
      if u in d then d[u] else 0
    }

    /** Copies count units of payload memory to a range that does not overlap the source range. */
    method CopyUnits(dst: int, src: int, count: int)
      requires 0 <= count && (dst + count <= src || src + count <= dst)
      modifies this`data
      ensures forall u :: dst <= u < dst + count ==> Peek(data, u) == Peek(old(data), src + (u - dst))
      ensures forall u :: u < dst || dst + count <= u ==> Peek(data, u) == Peek(old(data), u)
    {
      ghost var d := data;
      for j := 0 to count
        invariant forall u :: dst <= u < dst + j ==> Peek(data, u) == Peek(d, src + (u - dst))
        invariant forall u :: u < dst || dst + j <= u ==> Peek(data, u) == Peek(d, u)
      {
        ghost var before := data;
        var unit := Peek(data, src + j);
        data := data[dst + j := unit];
        forall u | dst <= u < dst + j + 1
          ensures Peek(data, u) == Peek(d, src + (u - dst))
        {
          assert u != dst + j ==> Peek(data, u) == Peek(before, u);
          assert u == dst + j ==> src + (u - dst) == src + j;
        }
      }
    }

    /** In place: the block at n, whose successor leaves room, gets k units. */
    method ReallocInPlace(n: int, k: int, mapOk: bool, ghost c: Ctx, ghost t: Tree, ghost p: int) returns (ok: bool)
      requires Valid() && tree.At(c, t, n, p) && tree.Summed(c, t) && t.Node? && Plug(c, t) == shape && t.id == n
      requires RoomInPlace(n, k) && 3 <= k && n in Blocks()
      modifies this`mmap, tree
      ensures Valid() && data == old(data)
      ensures ok <==> old(Blocks())[n] == k || n + k <= old(mmap) || mapOk
      ensures Blocks() == if ok then old(Blocks())[n := k] else old(Blocks())
      ensures mmap == if ok && old(Blocks())[n] != k then Grown(old(mmap), n + k) else old(mmap)
      ensures ok && old(Mapped()) ==> (Mapped() <==> GrowthFits(old(mmap), n + k))
      ensures old(InBounds()) ==> (InBounds() <==> !ok || n + k <= tree.end)
    {
      hide Placed, SumsOk, CtxSums, IsRedBlack, Plug, IsTree, IsCtx, Inorder, Word, Apart, Nodes;
      if tree.size[n] == k {
        return true;
      }
      GrownCovers(mmap, n + k);
      ok := MemGrow(n + k, mapOk);
      if ok {
        ResizeBlock(n, k, c, t, p);
        assert n in Blocks() && Blocks()[n] == k;
        if old(Mapped()) {
          MappedAfter(n, k, old(Blocks()), old(mmap));
        }
      }
    }

    /** By moving: a new block of k + 2 units, a copy, and removal of the old block. */
    method ReallocMove(i: int, bytes: int, mapOk: bool) returns (ptr: Ptr, clash: bool)
      requires Valid() && 0 < bytes < U64 - HEADER && Units(bytes) < U32
      requires i in Blocks() && Blocks()[i] < Units(bytes)
      modifies this, tree
      ensures Valid() && (ptr.Null? || Live(ptr))
      ensures ptr.Null? ==> Blocks() == old(Blocks()) && data == old(data) && (!clash ==> mmap == old(mmap))
      ensures Units(bytes) + 2 >= U32 || !old(HasRoom(Units(bytes) + 2)) ==> ptr.Null?
      ensures Units(bytes) + 2 < U32 && old(HasRoom(Units(bytes) + 2)) && ptr.Null? && !clash ==>
              !mapOk && old(UnmappedPlace(Units(bytes) + 2))
      ensures clash ==> ptr.Null? && old(HighPlace(Units(bytes) + 2))
      ensures ptr.Offset? ==>
              Moved(i, UnitOf(ptr.off), Units(bytes) + 2, old(Blocks()), Blocks(), old(data), data) &&
                ptr == PtrTo(UnitOf(ptr.off))
      ensures ptr.Offset? ==> Blocks()[UnitOf(ptr.off)] == Units(bytes) + 2 && UnitOf(ptr.off) <= old(TopEnd())
      ensures ptr.Offset? && old(Mapped() && !RoomInPlace(i, Units(bytes))) ==> i + 2 + old(Blocks())[i] <= old(mmap)
      ensures old(InBounds()) ==> InBounds()
      ensures ptr.Offset? ==> old(Blocks())[i] * UNIT < U32
      ensures ptr.Offset? && old(Mapped()) ==> (Mapped() <==> GrowthFits(old(mmap), UnitOf(ptr.off) + Units(bytes) + 2))
    {
      hide Placed, SumsOk, CtxSums, IsRedBlack, Plug, IsTree, IsCtx, Inorder, Word, Apart, Nodes, Units, HasRoom;
      hide Addressable, TopEnd, PayloadMoved, GrowthFits, RoomInPlace, HighPlace, UnmappedPlace;
      UnitsOfUnits(bytes);
      CopySourceMapped(i, Units(bytes));
      var copySize := Word(tree.size[i] * UNIT);
      ghost var blocks := Blocks();
      ptr, clash := Malloc(bytes + HEADER, mapOk);
      if ptr.Null? {
        return;
      }
      var j := UnitOf(ptr.off);
      BlocksMeanNodes();
      BlockRange(i);
      BlockRange(j);
      CopySizeExact(i, blocks[i], j, Units(bytes) + 2);
      CopyPayload(i, j, copySize / UNIT, Units(bytes) + 2, blocks);
      FreeOld(i);
    }

    /** Removes the old block. */
    method FreeOld(i: int)
      requires Valid() && i in Blocks()
      modifies this`shape, tree
      ensures Valid() && Blocks() == old(Blocks()) - {i} && tree.size == old(tree.size)
    {
      hide IsRedBlack, Placed, SumsOk, CtxSums, Plug, IsTree, IsCtx, Inorder;
      BlocksMeanNodes();
      ghost var c, t, p := tree.Locate(Top, shape, tree.root, NIL, i);
      RemoveBlock(i, c, t, p);
    }

    lemma BlockRange(i: int)
      requires Valid() && i in Blocks()
      ensures POOL_LB <= i < ADDRESSABLE && Blocks()[i] >= 3
    {
      Facts();
      NodePlaced(Inorder(shape), tree.size, tree.end, i);
    }

    /** The 32-bit number of bytes to copy does not wrap: two blocks with addressable headers do not overlap, and
        the longer is the new one. */
    static lemma CopySizeExact(i: int, size: int, j: int, k: int)
      requires 0 <= i < ADDRESSABLE && 0 <= j < ADDRESSABLE && 0 < size < k && (j + k <= i || i + size <= j)
      ensures size * UNIT < U32 && Word(size * UNIT) == size * UNIT
    {
    }

    /** Copies block i's units into the payload of the new block at j, past the end of i's own payload
        but not of j. */
    method CopyPayload(i: int, j: int, count: int, k: int, ghost blocks: map<int, int>)
      requires i in blocks && blocks[i] == count && 0 <= count && count + 2 <= k
      requires forall n :: n in blocks ==> j + k <= n || n + blocks[n] <= j
      requires j + 2 + count <= i + 2 || i + 2 + count <= j + 2
      modifies this`data
      ensures PayloadMoved(i, j, blocks, old(data), data)
    {
      ghost var d := data;
      CopyUnits(j + 2, i + 2, count);
      forall n, u | n in blocks && n <= u < n + blocks[n] ensures Peek(data, u) == Peek(d, u) {
        assert !(j + 2 <= u < j + 2 + count);
      }
      forall u | j + 2 <= u < j + blocks[i] ensures Peek(data, u) == Peek(d, u - j + i) {
        assert i + 2 + (u - (j + 2)) == u - j + i;
      }
    }

    /** When a block that cannot stay in place can be moved at all, the range copied, which ends two units past
        the block, is mapped: its successor lies above it. */
    lemma CopySourceMapped(i: int, k: int)
      requires Valid() && i in Blocks() && 0 < k
      ensures Mapped() && !RoomInPlace(i, k) && HasRoom(k + 2) ==> i + 2 + Blocks()[i] <= mmap
    {
      hide IsRedBlack, SumsOk, CtxSums, IsTree, IsCtx;
      if Mapped() && !RoomInPlace(i, k) && HasRoom(k + 2) {
        Facts();
        var ids := Inorder(shape);
        NodePlaced(ids, tree.size, tree.end, i);
        if m :| m in Blocks() && m > i && m < i + k {
          NodePlaced(ids, tree.size, tree.end, m);
          assert i + Blocks()[i] <= m && m + Blocks()[m] <= mmap;
        }
      }
    }

    /** A block is always allowed its present length. */
    lemma RoomForOwnSize(i: int, k: int)
      requires Valid() && i in Blocks() && !RoomInPlace(i, k) && k < U32
      ensures Blocks()[i] < k
    {
      hide IsRedBlack, Placed, SumsOk, CtxSums, IsTree, IsCtx;
      Facts();
      NodePlaced(Inorder(shape), tree.size, tree.end, i);
    }

    /** Block i got length k, or nothing changed. */
    static ghost predicate Stretched(i: int, k: int, old_: map<int, int>, new_: map<int, int>)
    {
      i in old_ && new_ == old_[i := k]
    }

    ghost predicate Live(ptr: Ptr)
      reads this, tree
    {
      ptr.Offset? && UnitOf(ptr.off) in Blocks() && ptr == PtrTo(UnitOf(ptr.off))
    }

    lemma NoRoomBeyondWord(i: int, k: int)
      requires Valid() && i in Blocks() && k >= U32
      ensures !RoomInPlace(i, k)
    {
      Facts();
      NodePlaced(Inorder(shape), tree.size, tree.end, i);
    }

    /** The requests for which realloc lets the last block run past the end of its pool. */
    ghost predicate LeavesPool(ptr: Ptr, bytes: int, mapOk: bool)
      reads this, tree
    {
      && Live(ptr) && bytes > 0 && RoomInPlace(UnitOf(ptr.off), Units(bytes))
      && tree.end < UnitOf(ptr.off) + Units(bytes) && (mapOk || UnitOf(ptr.off) + Units(bytes) <= mmap)
    }

    /** realloc: in place exactly when the block's successor leaves room, otherwise by moving.  It clashes only
        when adding the header wraps or when the new place starts at unit 2^28 or above. */
    method Realloc(ptr: Ptr, bytes: int, mapOk: bool) returns (out: Outcome)
      requires Valid() && 0 <= bytes < U64
      modifies this, tree
      ensures Valid()
      ensures !ptr.Offset? ==>
              !out.Panic? && data == old(data) &&
                (out.Returned? && out.ptr.Offset? ==> Added(out.ptr, Units(bytes), old(Blocks()), Blocks(), tree.end))
      ensures !ptr.Offset? ==> (bytes == 0 <==> out == Returned(ZeroSized))
      ensures !ptr.Offset? && bytes > 0 && Units(bytes) < U32 && old(HasRoom(Units(bytes))) && out == Returned(Null) ==>
              !mapOk && old(UnmappedPlace(Units(bytes)))
      ensures out.Panic? <==> ptr.Offset? && !old(Live(ptr)) && (BadPtr(ptr.off) || bytes == 0 || Units(bytes) < U32)
      ensures out.Panic? || (ptr.Offset? && bytes > 0 && Units(bytes) >= U32) || out == Returned(Null) ||
              (!ptr.Offset? && bytes == 0) ==>
              Blocks() == old(Blocks()) && data == old(data) && mmap == old(mmap)
      ensures ptr.Offset? && bytes > 0 && Units(bytes) >= U32 ==> out == Panic || out == Returned(Null)
      ensures old(Live(ptr)) && bytes == 0 ==>
              out == Returned(ZeroSized) && Blocks() == old(Blocks()) - {UnitOf(ptr.off)} && data == old(data)
      ensures old(Live(ptr)) && 0 < bytes < U64 - HEADER && Units(bytes) < U32 &&
              old(RoomInPlace(UnitOf(ptr.off), Units(bytes))) ==>
              data == old(data) &&
              if out == Returned(ptr) then Stretched(UnitOf(ptr.off), Units(bytes), old(Blocks()), Blocks())
              else out == Returned(Null) && !mapOk && UnitOf(ptr.off) + Units(bytes) > old(mmap)
      ensures old(Live(ptr)) && 0 < bytes < U64 - HEADER && Units(bytes) < U32 &&
              !old(RoomInPlace(UnitOf(ptr.off), Units(bytes))) ==>
              out.Clash? || out == Returned(Null) || (out.Returned? && Live(out.ptr) &&
                Moved(UnitOf(ptr.off), UnitOf(out.ptr.off), Units(bytes) + 2, old(Blocks()), Blocks(),
                      old(data), data) &&
                (old(Mapped()) ==> UnitOf(ptr.off) + 2 + old(Blocks())[UnitOf(ptr.off)] <= old(mmap)))
      ensures old(Live(ptr) && HasRoom(Units(bytes) + 2)) && 0 < bytes < U64 - HEADER && Units(bytes) + 2 < U32 &&
              !old(RoomInPlace(UnitOf(ptr.off), Units(bytes))) && out == Returned(Null) ==>
              !mapOk && old(UnmappedPlace(Units(bytes) + 2))
      ensures out.Clash? ==> Blocks() == old(Blocks()) && data == old(data)
      ensures out.Clash? && bytes < U64 - HEADER ==>
              old(HighPlace(Units(bytes))) || (ptr.Offset? && old(HighPlace(Units(bytes) + 2)))
      ensures old(Live(ptr)) && bytes >= U64 - HEADER ==>
              out == if mapOk || UnitOf(ptr.off) + Units(bytes) <= old(mmap) then Clash else Returned(Null)
      ensures old(InBounds()) ==> (InBounds() <==> !old(LeavesPool(ptr, bytes, mapOk)))
      ensures out.Returned? && out.ptr.Offset? ==> UnitOf(out.ptr.off) <= old(TopEnd())
      ensures !out.Clash? && !(out.Returned? && out.ptr.Offset?) ==> mmap == old(mmap)
      ensures old(Mapped()) && out.Returned? && out.ptr.Offset? ==>
              UnitOf(out.ptr.off) in Blocks() &&
              (Mapped() <==> GrowthFits(old(mmap), UnitOf(out.ptr.off) + Blocks()[UnitOf(out.ptr.off)]))
    {
      hide IsRedBlack, Placed, SumsOk, CtxSums, IsTree, IsCtx, Apart, Inorder, Plug, RoomInPlace, Moved, Added, Units;
      hide HasRoom, Addressable, Word, Nodes, TopEnd, GrowthFits, Grown, Stretched, HighPlace, LeavesPool;
      hide UnmappedPlace;
      if LeavesPool(ptr, bytes, mapOk) {
        LeavesOnlyLive(ptr, bytes, mapOk);
      }
      if ptr.Null? || ptr.ZeroSized? {
        var q, clash := Malloc(bytes, mapOk);
        if q.Offset? {
          AddedBlock(q, Units(bytes), old(Blocks()), Blocks(), tree.end);
        }
        return if clash then Clash else Returned(q);
      }
      if BadPtr(ptr.off) {
        BadPtrIsDead(ptr.off);
        return Panic;
      }
      GoodPtr(ptr.off);
      if bytes == 0 {
        var released := Release(ptr);
        return if released then Returned(ZeroSized) else Panic;
      }
      out := ReallocBlock(ptr, bytes, mapOk);
    }

    /** realloc of a well-formed pointer to a size other than 0. */
    method ReallocBlock(ptr: Ptr, bytes: int, mapOk: bool) returns (out: Outcome)
      requires Valid() && 0 < bytes < U64 && ptr.Offset? && !BadPtr(ptr.off)
      requires UnitOf(ptr.off) in Nodes(shape) <==> Live(ptr)
      modifies this, tree
      ensures Valid()
      ensures out.Panic? <==> !old(Live(ptr)) && Units(bytes) < U32
      ensures out.Panic? || Units(bytes) >= U32 || out == Returned(Null) ==>
              Blocks() == old(Blocks()) && data == old(data) && mmap == old(mmap)
      ensures Units(bytes) >= U32 ==> out == Returned(Null)
      ensures out.Returned? && out.ptr.Offset? ==> old(Live(ptr)) && bytes < U64 - HEADER
      ensures out.Returned? ==> !out.ptr.ZeroSized?
      ensures old(Live(ptr)) && bytes < U64 - HEADER && Units(bytes) < U32 &&
              old(RoomInPlace(UnitOf(ptr.off), Units(bytes))) ==>
              data == old(data) &&
              if out == Returned(ptr) then Stretched(UnitOf(ptr.off), Units(bytes), old(Blocks()), Blocks())
              else out == Returned(Null) && !mapOk && UnitOf(ptr.off) + Units(bytes) > old(mmap)
      ensures old(Live(ptr)) && bytes < U64 - HEADER && Units(bytes) < U32 &&
              !old(RoomInPlace(UnitOf(ptr.off), Units(bytes))) ==>
              out.Clash? || out == Returned(Null) || (out.Returned? && Live(out.ptr) &&
                Moved(UnitOf(ptr.off), UnitOf(out.ptr.off), Units(bytes) + 2, old(Blocks()), Blocks(),
                      old(data), data) &&
                (old(Mapped()) ==> UnitOf(ptr.off) + 2 + old(Blocks())[UnitOf(ptr.off)] <= old(mmap)))
      ensures old(Live(ptr) && HasRoom(Units(bytes) + 2)) && bytes < U64 - HEADER && Units(bytes) + 2 < U32 &&
              !old(RoomInPlace(UnitOf(ptr.off), Units(bytes))) && out == Returned(Null) ==>
              !mapOk && old(UnmappedPlace(Units(bytes) + 2))
      ensures out.Clash? ==> Blocks() == old(Blocks()) && data == old(data)
      ensures out.Clash? && bytes < U64 - HEADER ==> old(HighPlace(Units(bytes) + 2))
      ensures old(Live(ptr)) && bytes >= U64 - HEADER ==>
              out == if mapOk || UnitOf(ptr.off) + Units(bytes) <= old(mmap) then Clash else Returned(Null)
      ensures old(InBounds()) ==> (InBounds() <==> !old(LeavesPool(ptr, bytes, mapOk)))
      ensures out.Returned? && out.ptr.Offset? ==> UnitOf(out.ptr.off) <= old(TopEnd())
      ensures !out.Clash? && !(out.Returned? && out.ptr.Offset?) ==> mmap == old(mmap)
      ensures old(Mapped()) && out.Returned? && out.ptr.Offset? ==>
              UnitOf(out.ptr.off) in Blocks() &&
              (Mapped() <==> GrowthFits(old(mmap), UnitOf(out.ptr.off) + Blocks()[UnitOf(out.ptr.off)]))
    {
      hide IsRedBlack, Placed, SumsOk, CtxSums, IsTree, IsCtx, Apart, Inorder, Plug, RoomInPlace, Moved, Added, Units;
      hide HasRoom, Addressable, Word, Nodes, TopEnd, GrowthFits, Grown, HighPlace, LeavesPool, BadPtr, Stretched;
      hide UnmappedPlace;
      if LeavesPool(ptr, bytes, mapOk) {
        LeavesOnlyLive(ptr, bytes, mapOk);
      }
      var i := UnitOf(ptr.off);
      var size128 := Units(bytes);
      ShortExactlyWhenWrapped(bytes);
      if size128 > U32 - 1 {
        if Live(ptr) {
          NoRoomBeyondWord(i, size128);
        }
        return Returned(Null);
      }
      var found, ub;
      ghost var c, t, p, steps;
      found, ub, c, t, p, steps := Find(i);
      if !found {
        return Panic;
      }
      if size128 < 3 {
        ShorterFits(i, size128);
        GrownCovers(mmap, i + size128);
        var grown := MemGrow(i + size128, mapOk);
        return if grown then Clash else Returned(Null);
      }
      var q, clash := ReallocFound(ptr, i, bytes, mapOk, ub, c, t, p);
      out := if clash then Clash else Returned(q);
    }

    lemma LeavesOnlyLive(ptr: Ptr, bytes: int, mapOk: bool)
      requires Valid() && LeavesPool(ptr, bytes, mapOk)
      ensures Live(ptr) && bytes > 0 && tree.end < UnitOf(ptr.off) + Units(bytes) && Units(bytes) < U32
    {
      BlockRange(UnitOf(ptr.off));
    }

    /** A size below the present one fits in place and stays in the pool's range of units. */
    lemma ShorterFits(i: int, k: int)
      requires Valid() && i in Blocks() && 0 <= k < 3
      ensures RoomInPlace(i, k) && 0 <= i && i + k <= tree.end
    {
      hide IsRedBlack, SumsOk, CtxSums, IsTree, IsCtx;
      Facts();
      NodePlaced(Inorder(shape), tree.size, tree.end, i);
    }

    /** The live block i, whose place in the tree is known, in place or by moving. */
    method ReallocFound(ptr: Ptr, i: int, bytes: int, mapOk: bool, ub0: int, ghost c: Ctx, ghost t: Tree, ghost p: int)
      returns (q: Ptr, clash: bool)
      requires Valid() && 0 < bytes < U64 - HEADER && Units(bytes) < U32
      requires tree.At(c, t, i, p) && tree.Summed(c, t) && t.Node? && Plug(c, t) == shape && t.id == i
      requires ub0 == if After(c) == [] then U32 - 1 else After(c)[0]
      requires Live(ptr) && UnitOf(ptr.off) == i
      modifies this, tree
      ensures Valid() && (q.Null? || Live(q))
      ensures q.Null? ==> Blocks() == old(Blocks()) && data == old(data) && (!clash ==> mmap == old(mmap))
      ensures clash ==> q.Null? && !old(RoomInPlace(i, Units(bytes))) && old(HighPlace(Units(bytes) + 2))
      ensures old(RoomInPlace(i, Units(bytes))) ==>
              data == old(data) &&
              if q == ptr then Stretched(i, Units(bytes), old(Blocks()), Blocks())
              else q == Null && !mapOk && i + Units(bytes) > old(mmap)
      ensures !old(RoomInPlace(i, Units(bytes))) && q.Offset? ==>
              Moved(i, UnitOf(q.off), Units(bytes) + 2, old(Blocks()), Blocks(), old(data), data) &&
              (old(Mapped()) ==> i + 2 + old(Blocks())[i] <= old(mmap))
      ensures old(HasRoom(Units(bytes) + 2)) && Units(bytes) + 2 < U32 && !old(RoomInPlace(i, Units(bytes))) &&
              q.Null? && !clash ==>
              !mapOk && old(UnmappedPlace(Units(bytes) + 2))
      ensures old(InBounds()) ==> (InBounds() <==> !old(LeavesPool(ptr, bytes, mapOk)))
      ensures q.Offset? ==> UnitOf(q.off) <= old(TopEnd())
      ensures old(Mapped()) && q.Offset? ==>
              (Mapped() <==> GrowthFits(old(mmap), UnitOf(q.off) + Blocks()[UnitOf(q.off)]))
    {
      hide IsRedBlack, Placed, SumsOk, CtxSums, IsTree, IsCtx, Apart, Inorder, Plug, RoomInPlace, PayloadMoved, Units;
      hide HasRoom, Addressable, Word, Nodes, TopEnd, GrowthFits, Grown, HighPlace, UnmappedPlace;
      BlocksMeanNodes();
      EndsBelowTop(i);
      UnitsOfUnits(bytes);
      var ub := Ceiling(i, ub0, c, t, p);
      if i + Units(bytes) <= ub {
        var ok := ReallocInPlace(i, Units(bytes), mapOk, c, t, p);
        return if ok then ptr else Null, false;
      }
      RoomForOwnSize(i, Units(bytes));
      q, clash := ReallocMove(i, bytes, mapOk);
    }

    lemma BlocksMeanNodes()
      requires Valid()
      ensures Blocks().Keys == Nodes(shape) && tree.At(Top, shape, tree.root, NIL) && tree.Summed(Top, shape)
      ensures Plug(Top, shape) == shape
    {
      Facts();
    }

    /** Block i became block j of k units; every other block kept its place, its length and its payload,
        and j's payload starts with i's whole payload. */
    static ghost predicate Moved(i: int, j: int, k: int, old_: map<int, int>, new_: map<int, int>, d: map<int, int>,
                                 d': map<int, int>)
    {
      && i in old_ && j !in old_ && new_ == old_[j := k] - {i} && old_[i] + 2 < k && PayloadMoved(i, j, old_, d, d')
    }

    static ghost predicate PayloadMoved(i: int, j: int, old_: map<int, int>, d: map<int, int>, d': map<int, int>)
      requires i in old_
    {
      && (forall u :: j + 2 <= u < j + old_[i] ==> Peek(d', u) == Peek(d, u - j + i))
      && (forall n, u :: n in old_ && n <= u < n + old_[n] ==> Peek(d', u) == Peek(d, u))
    }
  }
}
