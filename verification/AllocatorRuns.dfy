/** Whole runs of malloc, free and realloc on one pool. */
module AllocatorRuns {
  import opened Arithmetic
  import opened Trees
  import opened Summaries
  import opened Links
  import Gaps
  import opened Allocator

  datatype Request = Alloc(bytes: int) | Free(ptr: Ptr) | Resize(ptr: Ptr, bytes: int)

  /** mapOk says whether the page mapping a request may need succeeds. */
  datatype Event = Event(request: Request, mapOk: bool)

  predicate Sane(r: Request)
  {
    match r
    case Alloc(b) => 0 <= b < U64
    case Free(_) => true
    case Resize(_, b) => 0 <= b < U64
  }

  /** Adding the header to the request wraps. */
  predicate Wraps(r: Request)
  {
    match r
    case Alloc(b) => b >= U64 - HEADER
    case Free(_) => false
    case Resize(_, b) => b >= U64 - HEADER
  }

  /** The most units by which a request can extend the used part of the pool. */
  function Cost(r: Request): nat
    requires Sane(r)
  {
    match r
    case Alloc(b) => Units(b)
    case Free(_) => 0
    case Resize(_, b) => Units(b) + 2
  }

  function Total(events: seq<Event>): nat
    requires forall e :: e in events ==> Sane(e.request)
  {
    if events == [] then 0 else Cost(events[0].request) + Total(events[1..])
  }

  /** No two live blocks share a unit. */
  ghost predicate Disjoint(blocks: map<int, int>)
  {
    forall n, m :: n in blocks && m in blocks && n < m ==> n + blocks[n] <= m
  }

  lemma ValidIsDisjoint(p: Pool)
    requires p.Valid()
    ensures Disjoint(p.Blocks()) && forall n :: n in p.Blocks() ==> POOL_LB <= n && p.Blocks()[n] >= 3
  {
    p.Facts();
    forall n, m | n in p.Blocks() && m in p.Blocks() && n < m ensures n + p.Blocks()[n] <= m {
      OrderedBlocks(p, n, m);
    }
    forall n | n in p.Blocks() ensures POOL_LB <= n {
      OrderedBlocks(p, n, n);
    }
  }

  lemma OrderedBlocks(p: Pool, n: int, m: int)
    requires p.Valid() && n in p.Blocks() && m in p.Blocks() && n <= m
    ensures POOL_LB <= n && (n < m ==> n + p.Blocks()[n] <= m)
  {
    p.Facts();
  }

  /** No byte of a live block's payload belongs to the header of a live block, at the address the header is
      accessed by. */
  lemma PayloadAvoidsHeaders(p: Pool, n: int, m: int, a: int)
    requires p.Valid() && n in p.Blocks() && m in p.Blocks()
    requires UNIT * n + HEADER <= a < UNIT * (n + p.Blocks()[n])
    ensures !(HeaderOffset(m) <= a < HeaderOffset(m) + HEADER)
  {
    ValidIsDisjoint(p);
    p.BlocksMeanNodes();
    HeaderOffsetExact(m, m);
  }

  /** Well formed, and all live blocks inside the pool and below the mapped limit. */
  ghost predicate Good(p: Pool)
    reads p, p.tree
  {
    p.Valid() && p.InBounds() && p.Mapped()
  }

  lemma MmapAligned(p: Pool)
    requires p.Valid()
    ensures 0 <= p.mmap < U32 && p.mmap % 256 == 0 && POOL_LB <= p.TopEnd()
  {
    p.TopEndLow();
  }

  lemma EndsBelow(p: Pool)
    requires p.Valid()
    ensures forall n :: n in p.Blocks() ==> n + p.Blocks()[n] <= p.TopEnd()
  {
    forall n | n in p.Blocks() ensures n + p.Blocks()[n] <= p.TopEnd() {
      p.EndsBelowTop(n);
    }
  }

  /** The end of the used part, as the root's summary has it; it alone decides bounds and mapping. */
  method UsedEnd(p: Pool) returns (top: int)
    requires p.Valid()
    ensures p.InBounds() <==> top <= p.tree.end
    ensures p.Mapped() <==> top <= p.mmap || p.tree.root == NIL
    ensures top == p.TopEnd()
  {
    p.Facts();
    TopIsAnEnd(p);
    if p.tree.root == NIL {
      return POOL_LB;
    }
    top := p.tree.sum[p.tree.root].ub;
  }

  lemma TopIsAnEnd(p: Pool)
    requires p.Valid()
    ensures p.tree.root == NIL <==> p.Blocks() == map[]
    ensures p.Blocks() == map[] ==> p.TopEnd() == POOL_LB
    ensures p.Blocks() != map[] ==> exists n :: n in p.Blocks() && n + p.Blocks()[n] == p.TopEnd()
    ensures forall n :: n in p.Blocks() ==> n + p.Blocks()[n] <= p.TopEnd()
  {
    EndsBelow(p);
    p.Facts();
    p.BlocksMeanNodes();
    var ids := Inorder(p.shape);
    if ids != [] {
      var last := ids[|ids| - 1];
      assert last in Elements(ids);
      assert last in p.Blocks() && last + p.Blocks()[last] == p.TopEnd();
    }
  }

  /** Growth for a block that ends well below 2^32 never wraps. */
  lemma BlockFits(p: Pool, mmap: int, n: int)
    requires p.Valid() && n in p.Blocks() && p.TopEnd() + 1024 < U32 && 0 <= mmap < U32 && mmap % 256 == 0
    ensures GrowthFits(mmap, n + p.Blocks()[n])
  {
    p.EndsBelowTop(n);
    GrownCovers(mmap, n + p.Blocks()[n]);
  }

  method ServeAlloc(p: Pool, bytes: int, mapOk: bool) returns (clash: bool)
    requires Sane(Alloc(bytes)) && Good(p)
    modifies p, p.tree
    ensures p.Valid() && p.InBounds() && p.TopEnd() <= old(p.TopEnd()) + Units(bytes)
    ensures !clash && p.TopEnd() + 1024 < U32 ==> p.Mapped()
    ensures clash ==> bytes >= U64 - HEADER || !p.Addressable()
  {
    hide Units, Grown, GrowthFits, Pool.Valid, Pool.TopEnd, Pool.HasRoom, Pool.Addressable, Pool.HighPlace;
    hide Pool.UnmappedPlace;
    ghost var mmap, blocks, top := p.mmap, p.Blocks(), p.TopEnd();
    MmapAligned(p);
    TopIsAnEnd(p);
    EndsHigh(p);
    if 0 < bytes < U64 - HEADER && p.Addressable() {
      HighPlaces(p, bytes);
    }
    var ptr;
    ptr, clash := p.Malloc(bytes, mapOk);
    assert Cost(Alloc(bytes)) >= 0;
    p.TopEndBelow(top + Units(bytes));
    if clash && old(!p.Addressable()) {
      StillHigh(p, blocks, top);
    }
    if ptr.Offset? && p.TopEnd() + 1024 < U32 {
      p.AddedBlock(ptr, Units(bytes), blocks, p.Blocks(), p.tree.end);
      BlockFits(p, mmap, UnitOf(ptr.off));
    }
  }

  /** A place with an unaddressable header can be chosen only when the used part reaches that far. */
  lemma HighPlaces(p: Pool, bytes: int)
    requires p.Valid() && 0 < bytes < U64 - HEADER && p.Addressable()
    ensures !p.HighPlace(Units(bytes)) && !p.HighPlace(Units(bytes) + 2)
  {
    ShortExactlyWhenWrapped(bytes);
  }

  lemma EndsHigh(p: Pool)
    requires p.Valid()
    ensures !p.Addressable() <==> p.tree.end > ADDRESSABLE && p.TopEnd() >= ADDRESSABLE
  {
  }

  /** With the same blocks as before, a used part that was high is high. */
  lemma StillHigh(p: Pool, blocks: map<int, int>, top: int)
    requires p.Valid() && p.Blocks() == blocks && p.tree.end > ADDRESSABLE && top >= ADDRESSABLE
    requires blocks != map[] && exists n :: n in blocks && n + blocks[n] == top
    ensures !p.Addressable()
  {
    EndsBelow(p);
    EndsHigh(p);
  }

  method ServeFree(p: Pool, ptr: Ptr) returns (ok: bool)
    requires Good(p)
    modifies p, p.tree
    ensures Good(p) && p.TopEnd() <= old(p.TopEnd())
  {
    hide Pool.Valid, Pool.TopEnd;
    ghost var top := p.TopEnd();
    MmapAligned(p);
    EndsBelow(p);
    ok := p.Release(ptr);
    p.TopEndBelow(top);
  }

  method ServeResize(p: Pool, ptr: Ptr, bytes: int, mapOk: bool) returns (out: Outcome)
    requires Sane(Resize(ptr, bytes)) && Good(p)
    modifies p, p.tree
    ensures p.Valid() && p.TopEnd() <= old(p.TopEnd()) + Units(bytes) + 2
    ensures p.tree.end == U32 - 1 || out.Clash? ==> p.InBounds()
    ensures !out.Clash? && p.TopEnd() + 1024 < U32 ==> p.Mapped()
    ensures out.Clash? ==> bytes >= U64 - HEADER || !p.Addressable()
  {
    hide Units, Grown, GrowthFits, UnitOf, Pool.Valid, Pool.TopEnd, Pool.HasRoom, Pool.Addressable, Pool.RoomInPlace;
    hide Pool.PayloadMoved, Pool.LeavesPool, Pool.HighPlace, Pool.Added, Pool.Stretched, Pool.Moved, Pool.UnmappedPlace;
    hide Pool.Live;
    LiveIsBlock(p, ptr);
    ghost var mmap, blocks, data, top := p.mmap, p.Blocks(), p.data, p.TopEnd();
    MmapAligned(p);
    TopIsAnEnd(p);
    EndsHigh(p);
    if 0 < bytes < U64 - HEADER && p.Addressable() {
      HighPlaces(p, bytes);
    }
    if p.tree.end == U32 - 1 {
      LargestPoolIsKept(p, ptr, bytes, mapOk);
    }
    out := p.Realloc(ptr, bytes, mapOk);
    assert Cost(Resize(ptr, bytes)) >= 0;
    if out.Returned? {
      LiveIsBlock(p, out.ptr);
    }
    if out.Returned? && out.ptr.Offset? {
      assert ptr.Offset? ==> old(p.Live(ptr)) && 0 < bytes < U64 - HEADER && Units(bytes) < U32;
      assert ptr.Offset? && old(p.RoomInPlace(UnitOf(ptr.off), Units(bytes))) ==> out.ptr == ptr;
      OneBlockGrew(p, ptr, out.ptr, bytes, blocks, data, top);
      if p.TopEnd() + 1024 < U32 {
        BlockFits(p, mmap, UnitOf(out.ptr.off));
      }
    } else {
      assert forall n :: n in p.Blocks() ==> n in blocks && p.Blocks()[n] == blocks[n];
      p.TopEndBelow(top + Units(bytes) + 2);
      if out.Clash? && old(!p.Addressable()) {
        StillHigh(p, blocks, top);
      }
    }
  }

  lemma LiveIsBlock(p: Pool, ptr: Ptr)
    ensures p.Live(ptr) ==> ptr.Offset? && UnitOf(ptr.off) in p.Blocks()
  {
  }

  /** After a successful realloc only the block it returns is new or of another size. */
  lemma OneBlockGrew(p: Pool, ptr: Ptr, q: Ptr, bytes: int, blocks: map<int, int>, data: map<int, int>, top: int)
    requires p.Valid() && q.Offset? && POOL_LB <= top && 0 <= Units(bytes) + 2 && UnitOf(q.off) <= top
    requires forall n :: n in blocks ==> n + blocks[n] <= top
    requires || Pool.Added(q, Units(bytes), blocks, p.Blocks(), p.tree.end)
             || (ptr == q && Pool.Stretched(UnitOf(q.off), Units(bytes), blocks, p.Blocks()))
             || (ptr.Offset? &&
                 Pool.Moved(UnitOf(ptr.off), UnitOf(q.off), Units(bytes) + 2, blocks, p.Blocks(), data, p.data))
    ensures UnitOf(q.off) in p.Blocks()
    ensures p.TopEnd() <= top + Units(bytes) + 2
  {
    hide Pool.Valid, Pool.TopEnd, Units, UnitOf, Pool.PayloadMoved;
    var i := UnitOf(q.off);
    assert i in p.Blocks() && p.Blocks()[i] <= Units(bytes) + 2;
    assert forall n :: n in p.Blocks() && n != i ==> n in blocks && p.Blocks()[n] == blocks[n];
    p.TopEndBelow(top + Units(bytes) + 2);
  }

  lemma LargestPoolIsKept(p: Pool, ptr: Ptr, bytes: int, mapOk: bool)
    requires p.tree.end == U32 - 1
    ensures !p.LeavesPool(ptr, bytes, mapOk)
  {
  }

  datatype Step = Normal | Panics | Clashes

  /** One request, and how it ends. */
  method ServeOne(p: Pool, e: Event) returns (step: Step)
    requires Sane(e.request) && Good(p)
    modifies p, p.tree
    ensures p.Valid() && p.TopEnd() <= old(p.TopEnd()) + Cost(e.request)
    ensures !e.request.Resize? || p.tree.end == U32 - 1 || step.Clashes? ==> p.InBounds()
    ensures !step.Clashes? && p.TopEnd() + 1024 < U32 ==> p.Mapped()
    ensures step.Clashes? ==> Wraps(e.request) || !p.Addressable()
  {
    hide Units, Pool.Valid, Pool.TopEnd, Pool.Addressable;
    match e.request
    case Alloc(bytes) =>
      var clash := ServeAlloc(p, bytes, e.mapOk);
      step := if clash then Clashes else Normal;
    case Free(ptr) =>
      var ok := ServeFree(p, ptr);
      step := if ok then Normal else Panics;
    case Resize(ptr, bytes) =>
      var out := ServeResize(p, ptr, bytes, e.mapOk);
      step := if out.Clash? then Clashes else if out.Panic? then Panics else Normal;
  }

  /** Why a run stops: it is complete, a call panicked, a header clashed, realloc put a block past the end of
      the pool, or the mapped limit wrapped and no longer covers every block. */
  datatype Ending = Completed | Panicked | Clashed | LeftPool | Unmapped

  /** Every state of every run: any sequence of malloc, free and realloc calls leaves a well-formed tree with
      exact summaries and pairwise disjoint live blocks, all inside the pool and mapped, until a call panics,
      clashes, leaves the pool or wraps the mapped limit.  Each of these ends only a run that gives it its
      cause: a clash needs a request that wraps or a used part that reaches unit 2^28, leaving the pool
      needs realloc in a pool that is not of the largest size, an unmapped block must end within 1024 units of
      2^32.  None happens while all requests so far add up to less than 2^28 units. */
  method Serve(p: Pool, events: seq<Event>) returns (ending: Ending, served: nat)
    requires Good(p) && forall e :: e in events ==> Sane(e.request)
    modifies p, p.tree
    ensures p.Valid() && Disjoint(p.Blocks()) && served <= |events|
    ensures ending.Completed? ==> served == |events|
    ensures ending.Completed? || ending.Panicked? ==> Good(p)
    ensures ending.Clashed? ==> served > 0 && p.InBounds()
    ensures ending.Clashed? && !Wraps(events[served - 1].request) ==>
            p.tree.end > ADDRESSABLE && p.TopEnd() >= ADDRESSABLE
    ensures ending.LeftPool? <==> !p.InBounds()
    ensures ending.Unmapped? ==> p.InBounds() && !p.Mapped() && U32 <= p.TopEnd() + 1024
    ensures p.tree.end == U32 - 1 || (forall e :: e in events ==> !e.request.Resize?) ==> p.InBounds()
    ensures p.tree.end == U32 - 1 && (forall e :: e in events ==> !Wraps(e.request)) ==>
            old(p.TopEnd()) + Total(events) < ADDRESSABLE ==> ending.Completed? || ending.Panicked?
  {
    hide Pool.Valid, Pool.TopEnd, Units, Pool.Addressable;
    served := 0;
    while served < |events|
      invariant Good(p) && served <= |events| && forall e :: e in events[served..] ==> Sane(e.request)
      invariant p.TopEnd() + Total(events[served..]) <= old(p.TopEnd()) + Total(events)
    {
      var e := events[served];
      TotalStep(events[served..]);
      assert events[served..][1..] == events[served + 1..] && events[served..][0] == e;
      assert e in events;
      var step := ServeOne(p, e);
      served := served + 1;
      var top := UsedEnd(p);
      ValidIsDisjoint(p);
      EndsHigh(p);
      if step.Clashes? {
        return Clashed, served;
      }
      if p.tree.end < top {
        return LeftPool, served;
      }
      if p.tree.root != NIL && p.mmap < top {
        return Unmapped, served;
      }
      if step.Panics? {
        return Panicked, served;
      }
    }
    ValidIsDisjoint(p);
    ending := Completed;
  }

  lemma TotalStep(events: seq<Event>)
    requires events != [] && forall e :: e in events ==> Sane(e.request)
    ensures forall e :: e in events[1..] ==> Sane(e.request)
    ensures Total(events) == Cost(events[0].request) + Total(events[1..])
  {
  }

  /** The size condition on realloc is needed: in a pool of one page, growing the only block to a whole page
      succeeds in place, past the end of the pool. */
  method ReallocLeavesPool() returns (p: Pool, out: Outcome)
    ensures p.Valid() && out.Returned? && out.ptr.Offset? && !p.InBounds()
  {
    p := new Pool(256, 256);
    EmptyHasRoom(p, 3);
    RequestUnits();
    hide Pool.Valid, Pool.HasRoom, Pool.Addressable, Units, Pool.Mapped, Grown, GrowthFits, Pool.TopEnd;
    var ptr, clash := p.Malloc(16, true);
    var i := UnitOf(ptr.off);
    assert p.Blocks() == map[][i := 3];
    assert p.Live(ptr) && p.RoomInPlace(i, 256);
    SmallIsAddressable(p);
    out := p.Realloc(ptr, 4064, true);
  }

  lemma RequestUnits()
    ensures Units(16) == 3 && Units(4064) == 256
  {
  }

  lemma SmallIsAddressable(p: Pool)
    requires p.Valid() && p.tree.end <= ADDRESSABLE
    ensures p.Addressable()
  {
  }

  lemma FirstElement(ids: seq<int>)
    requires ids != []
    ensures Elements(ids) != {}
  {
    assert ids[0] in Elements(ids);
  }

  lemma EmptyHasRoom(p: Pool, k: int)
    requires p.Valid() && p.Blocks() == map[] && 0 < k <= p.tree.end - POOL_LB && p.tree.end <= ADDRESSABLE
    ensures p.HasRoom(k) && p.Addressable()
  {
    p.BlocksMeanNodes();
    p.Facts();
    var ids := Inorder(p.shape);
    if ids != [] {
      FirstElement(ids);
    }
    assert Gaps.Free(ids, p.tree.size, POOL_LB, k);
  }
}
