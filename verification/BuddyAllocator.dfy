/** The buddy frame allocator: bitmap, per-order free lists threaded through free frames, splitting on
    allocation and coalescing on deallocation. */
module BuddyFrames {
  import opened Bits
  import opened Options
  import opened FreeLists
  import opened BuddyBlocks
  import opened BuddySeams
  import opened BuddyLists
  import opened BuddyBitmap
  import opened BuddyPool
  import opened BuddyCarve
  import R = BuddyRuns

  ghost function Span(start: nat, count: nat): set<nat> {
    set j: nat | j < start + count && InSpan(start, count, j)
  }

  predicate InSpan(start: nat, count: nat, j: nat) {
    start <= j < start + count
  }

  lemma SpanIsFrames(idx: nat, order: nat)
    ensures Span(idx, Pow2(order)) == Frames(Chunk(idx, order))
  {
    hide Pow2;
    assert forall j: nat :: InSpan(idx, Pow2(order), j) <==> Has(Chunk(idx, order), j);
  }

  /** A region of the boot memory map, by physical address. */
  datatype MemoryRegion = MemoryRegion(start: nat, end: nat, usable: bool)

  /** The frames of `[start, end)` that are tracked. */
  function Clipped(start: nat, end: nat, total: nat): Region {
    Region(if start < total then start else total, if end < total then end else total)
  }

  const U64_MAX: nat := 0xFFFF_FFFF_FFFF_FFFF

  /** What a boot memory map guarantees: page-aligned usable regions that do not overlap. */
  ghost predicate MapOk(regions: seq<MemoryRegion>) {
    && (forall i: nat :: i < |regions| && regions[i].usable ==>
          && regions[i].start <= regions[i].end <= U64_MAX
          && regions[i].start % FRAME_SIZE == 0 && regions[i].end % FRAME_SIZE == 0)
    && (forall i: nat, k: nat :: i < |regions| && k < |regions| && i != k && regions[i].usable && regions[k].usable ==>
          regions[i].end <= regions[k].start || regions[k].end <= regions[i].start)
  }

  /** The tracked frames of one region; none if it is not usable. */
  function RegionOf(r: MemoryRegion, base: nat, total: nat): Region {
    if r.usable && base <= r.start <= r.end then
      Clipped((r.start - base) / FRAME_SIZE, (r.end - base) / FRAME_SIZE, total)
    else
      Region(0, 0)
  }

  function FrameRegions(regions: seq<MemoryRegion>, base: nat, total: nat): seq<Region> {
    seq(|regions|, i requires 0 <= i < |regions| => RegionOf(regions[i], base, total))
  }

  lemma FrameRegionsSeparate(regions: seq<MemoryRegion>, base: nat, total: nat)
    requires MapOk(regions)
    ensures Separate(FrameRegions(regions, base, total))
  {
    var rs := FrameRegions(regions, base, total);
    forall i: nat, k: nat, j: nat | i < |rs| && k < |rs| && InRegion(rs[i], j) && InRegion(rs[k], j)
      ensures i == k
    {
      assert rs[i] == RegionOf(regions[i], base, total) && rs[k] == RegionOf(regions[k], base, total);
    }
  }

  /** `base` and `lastEnd` are the lowest start and the highest end of the usable regions. */
  ghost predicate Bounds(regions: seq<MemoryRegion>, base: nat, lastEnd: nat) {
    && (forall i: nat :: i < |regions| && regions[i].usable ==> base <= regions[i].start && regions[i].end <= lastEnd)
    && (exists i: nat :: i < |regions| && regions[i].usable && regions[i].start == base)
    && (exists i: nat :: i < |regions| && regions[i].usable && regions[i].end == lastEnd)
  }

  /** Frame 0 is at the lowest usable address, and the frames up to the highest are tracked, within the limit. */
  ghost predicate Tracks(regions: seq<MemoryRegion>, base: nat, total: nat) {
    exists lastEnd: nat ::
      && Bounds(regions, base, lastEnd) && base <= lastEnd
      && total == Min((lastEnd - base) / 4096, 131072)
  }

  lemma TracksOnly(regions: seq<MemoryRegion>, base: nat, total: nat, lo: nat, hi: nat)
    requires Tracks(regions, base, total) && Bounds(regions, lo, hi)
    ensures lo <= hi && base == lo && total == Min((hi - lo) / 4096, 131072)
  {
    var lastEnd: nat :| Bounds(regions, base, lastEnd) && base <= lastEnd
                        && total == Min((lastEnd - base) / 4096, 131072);
  }

  /** A boot memory map in which no two usable regions touch. */
  ghost predicate MapGapped(regions: seq<MemoryRegion>) {
    forall i: nat, k: nat :: i < |regions| && k < |regions| && i != k && regions[i].usable && regions[k].usable ==>
      regions[i].end < regions[k].start || regions[k].end < regions[i].start
  }

  /** Page-aligned gaps stay gaps when regions are counted in frames and clipped. */
  lemma GapInFrames(a: MemoryRegion, b: MemoryRegion, base: nat, total: nat)
    requires a.start % FRAME_SIZE == 0 && a.end % FRAME_SIZE == 0 && b.start % FRAME_SIZE == 0
    requires base % FRAME_SIZE == 0 && a.end < b.start
    requires !Empty(RegionOf(a, base, total)) && !Empty(RegionOf(b, base, total))
    ensures RegionOf(a, base, total).end < RegionOf(b, base, total).start
  {
  }

  lemma MapGappedIsGapped(regions: seq<MemoryRegion>, base: nat, total: nat)
    requires MapOk(regions) && MapGapped(regions) && base % FRAME_SIZE == 0
    ensures Gapped(FrameRegions(regions, base, total))
  {
    var rs := FrameRegions(regions, base, total);
    forall i: nat, k: nat | i < |rs| && k < |rs| && i != k && !Empty(rs[i]) && !Empty(rs[k])
      ensures rs[i].end < rs[k].start || rs[k].end < rs[i].start
    {
      assert rs[i] == RegionOf(regions[i], base, total) && rs[k] == RegionOf(regions[k], base, total);
      if regions[i].end < regions[k].start {
        GapInFrames(regions[i], regions[k], base, total);
      } else {
        GapInFrames(regions[k], regions[i], base, total);
      }
    }
  }

  lemma FrameRegionsTracked(regions: seq<MemoryRegion>, base: nat, total: nat)
    ensures forall j :: j in UsableFrames(FrameRegions(regions, base, total)) ==> j < total
  {
  }

  /** The words of frame `i` are the same in both memories. */
  ghost predicate FrameKept(mem: Memory, mem': Memory, off: nat, i: nat) {
    forall w: nat :: FramePtr(off, i) <= w < FramePtr(off, i) + FRAME_SIZE ==>
      (w in mem <==> w in mem') && (w in mem ==> mem'[w] == mem[w])
  }

  /** Only frames of `s` were written. */
  ghost predicate OnlyFramesWritten(mem: Memory, mem': Memory, off: nat, s: set<nat>) {
    forall i: nat {:trigger FrameKept(mem, mem', off, i)} :: i !in s ==> FrameKept(mem, mem', off, i)
  }

  lemma LinksInFrames(mem: Memory, mem': Memory, off: nat, s: set<nat>, t: set<nat>)
    requires OnlyLinksDiffer(mem, mem', off, s) && s <= t
    ensures OnlyFramesWritten(mem, mem', off, t)
  {
    forall i: nat | i !in t ensures FrameKept(mem, mem', off, i) {
      forall w: nat | FramePtr(off, i) <= w < FramePtr(off, i) + FRAME_SIZE
        ensures (w in mem <==> w in mem') && (w in mem ==> mem'[w] == mem[w])
      {
        if IsLinkWord(off, s, w) {
          var x :| x in s && (w == FramePtr(off, x) || w == FramePtr(off, x) + 8);
          OtherFrame(off, i, x, w);
        }
      }
    }
  }

  lemma OtherFrame(off: nat, i: nat, x: nat, w: nat)
    requires FramePtr(off, i) <= w < FramePtr(off, i) + FRAME_SIZE
    requires w == FramePtr(off, x) || w == FramePtr(off, x) + 8
    ensures i == x
  {
  }

  lemma WrittenTransitive(mem0: Memory, mem1: Memory, mem2: Memory, off: nat, s: set<nat>)
    requires OnlyFramesWritten(mem0, mem1, off, s) && OnlyFramesWritten(mem1, mem2, off, s)
    ensures OnlyFramesWritten(mem0, mem2, off, s)
  {
    hide FramePtr;
    forall i: nat | i !in s ensures FrameKept(mem0, mem2, off, i) {
      assert FrameKept(mem0, mem1, off, i) && FrameKept(mem1, mem2, off, i);
    }
  }

  class BuddyAllocator {
    var freeLists: seq<Option<nat>>
    var bitmap: seq<nat>
    var totalFrames: nat
    var basePhys: nat
    var physMemOffset: nat
    var allocatedCount: nat

    /** Memory as the kernel maps it. */
    var mem: Memory

    ghost var lists: seq<seq<nat>>
    ghost var free: set<nat>
    ghost var usable: set<nat>
    ghost var live: set<Chunk>

    /** Runs that are listed as two halves because regions touch in their middle. */
    ghost var seams: set<Chunk>

    function Offset(): nat
      reads this
    {
      basePhys + physMemOffset
    }

    ghost function ThePool(): Pool
      reads this
    {
      Pool(usable, free, live)
    }

    /** The allocator as a state of the machine on lists and bitmap. */
    ghost function Machine(): R.State
      reads this
    {
      R.State(lists, free, live)
    }

    /** Bitmap and lists are well formed; says nothing yet about which runs are listed. */
    ghost predicate Structure()
      reads this
    {
      && totalFrames <= MAX_TRACKED_FRAMES
      && basePhys % FRAME_SIZE == 0
      && ListsOk(mem, Offset(), freeLists, lists)
      && BitmapOk(bitmap, free)
      && (forall j :: j in free ==> j < totalFrames)
    }

    /** The lists hold the maximal runs of the free frames, seams as their halves, and frames are conserved. */
    ghost predicate Valid()
      reads this
    {
      && Structure()
      && Content(lists, free, seams) && Sealed(seams, usable)
      && PoolOk(ThePool())
      && (forall j :: j in usable ==> j < totalFrames)
      && allocatedCount + |free| == |usable|
    }

    // ---------------------------------------------------------------- bitmap

    method IsFree(idx: nat) returns (r: bool)
      requires BitmapOk(bitmap, free) && idx < MAX_TRACKED_FRAMES
      ensures r <==> idx in free
    {
      hide And, Pow2, TestBit;
      AndPow2(bitmap[idx / 64], idx % 64);
      assert BitAt(bitmap, idx) <==> idx in free;
      r := And(bitmap[idx / 64], Pow2(idx % 64)) != 0;
    }

    method IsRangeFree(start: nat, count: nat) returns (r: bool)
      requires Structure()
      ensures r <==> start + count <= totalFrames && Span(start, count) <= free
    {
      hide ListsOk;
      if start + count > totalFrames {
        if count > 0 {
          assert InSpan(start, count, start + count - 1) && start + count - 1 in Span(start, count);
        }
        return false;
      }
      for i := 0 to count
        invariant forall j: nat :: InSpan(start, i, j) ==> j in free
      {
        var f := IsFree(start + i);
        if !f {
          assert InSpan(start, count, start + i) && start + i in Span(start, count);
          return false;
        }
      }
      return true;
    }

    method MarkFree(idx: nat)
      requires BitmapOk(bitmap, free) && idx < MAX_TRACKED_FRAMES
      modifies `bitmap, `free
      ensures BitmapOk(bitmap, free) && free == old(free) + {idx}
    {
      MarkFreeOk(bitmap, free, idx);
      bitmap := bitmap[idx / 64 := Or(bitmap[idx / 64], Pow2(idx % 64))];
      free := free + {idx};
    }

    method MarkAllocated(idx: nat)
      requires BitmapOk(bitmap, free) && idx < MAX_TRACKED_FRAMES
      modifies `bitmap, `free
      ensures BitmapOk(bitmap, free) && free == old(free) - {idx}
    {
      BitBelow64(idx);
      MarkAllocatedOk(bitmap, free, idx);
      bitmap := bitmap[idx / 64 := And(bitmap[idx / 64], Not(Pow2(idx % 64), 64))];
      free := free - {idx};
    }

    method MarkRangeFree(start: nat, count: nat)
      requires BitmapOk(bitmap, free) && start + count <= MAX_TRACKED_FRAMES
      modifies `bitmap, `free
      ensures BitmapOk(bitmap, free) && free == old(free) + Span(start, count)
    {
      hide BitmapOk;
      for i := 0 to count
        invariant BitmapOk(bitmap, free)
        invariant free == old(free) + Span(start, i)
      {
        MarkFree(start + i);
        SpanGrows(start, i);
      }
    }

    method MarkRangeAllocated(start: nat, count: nat)
      requires BitmapOk(bitmap, free) && start + count <= MAX_TRACKED_FRAMES
      modifies `bitmap, `free
      ensures BitmapOk(bitmap, free) && free == old(free) - Span(start, count)
    {
      hide BitmapOk;
      for i := 0 to count
        invariant BitmapOk(bitmap, free)
        invariant free == old(free) - Span(start, i)
      {
        MarkAllocated(start + i);
        SpanGrows(start, i);
      }
    }

    static lemma SpanGrows(start: nat, i: nat)
      ensures Span(start, i + 1) == Span(start, i) + {start + i}
    {
      assert forall j: nat :: InSpan(start, i + 1, j) <==> InSpan(start, i, j) || j == start + i;
    }

    // ---------------------------------------------------------------- free lists

    method InsertFree(idx: nat, order: nat)
      requires Structure() && Dyadic(Chunk(idx, order)) && End(Chunk(idx, order)) <= totalFrames
      requires forall k: nat :: k <= MAX_ORDER ==> idx !in lists[k]
      modifies `bitmap, `free, `mem, `freeLists, `lists
      ensures Structure()
      ensures free == old(free) + Frames(Chunk(idx, order))
      ensures lists == old(lists)[order := [idx] + old(lists)[order]]
      ensures OnlyLinksDiffer(old(mem), mem, Offset(), {idx} + Elements(old(lists)[order]))
    {
      hide Pow2, BitmapOk, ListOk, Low, OnlyLinksDiffer;
      SpanIsFrames(idx, order);
      FramesHas(Chunk(idx, order));
      MarkRangeFree(idx, Pow2(order));
      PushOk(mem, Offset(), freeLists, lists, order, idx);
      ListHead(mem, Offset(), freeLists, lists, order);
      var header := FramePtr(Offset(), idx);
      var oldHead := freeLists[order];
      mem := mem[header := Encode(oldHead)];
      mem := mem[header + 8 := NULL_LINK];
      if oldHead.Some? {
        var oldHeader := FramePtr(Offset(), oldHead.value);
        mem := mem[oldHeader + 8 := idx];
      }
      freeLists := freeLists[order := Some(idx)];
      lists := lists[order := [idx] + lists[order]];
    }

    static lemma ListHead(m: Memory, off: nat, heads: seq<Option<nat>>, ls: seq<seq<nat>>, k: nat)
      requires ListsOk(m, off, heads, ls) && k <= MAX_ORDER
      ensures heads[k] == Head(ls[k])
    {
      assert ListOk(m, off, heads, ls, k);
    }

    method PopFree(order: nat) returns (r: Option<nat>)
      requires Structure() && order <= MAX_ORDER
      requires forall i :: i in lists[order] ==> End(Chunk(i, order)) <= totalFrames
      modifies `bitmap, `free, `mem, `freeLists, `lists
      ensures Structure()
      ensures r == Head(old(lists)[order])
      ensures r.None? ==> unchanged(this)
      ensures r.Some? ==>
                && free == old(free) - Frames(Chunk(r.value, order))
                && old(lists)[order] != [] && lists == R.PoppedLists(old(lists), order)
                && (forall x :: x in lists[order] <==> x in old(lists)[order] && x != r.value)
                && OnlyLinksDiffer(old(mem), mem, Offset(), Elements(old(lists)[order]))
    {
      hide Pow2, BitmapOk, ListOk, OnlyLinksDiffer, FramePtr, Without;
      ListHead(mem, Offset(), freeLists, lists, order);
      if freeLists[order].None? {
        return None;
      }
      RemoveOk(mem, Offset(), freeLists, lists, order, 0);
      var idx := freeLists[order].value;
      assert idx in lists[order];
      var header := FramePtr(Offset(), idx);
      var next := mem[header];
      if next != NULL_LINK {
        var nextHeader := FramePtr(Offset(), next);
        mem := mem[nextHeader + 8 := NULL_LINK];
      }
      freeLists := freeLists[order := if next == NULL_LINK then None else Some(next)];
      WithoutHead(lists[order]);
      lists := lists[order := lists[order][1..]];
      SpanIsFrames(idx, order);
      MarkRangeAllocated(idx, Pow2(order));
      return Some(idx);
    }

    /** Unlinks a run that is in the list of `order`. */
    method RemoveFree(idx: nat, order: nat)
      requires Structure() && order <= MAX_ORDER && idx in lists[order]
      modifies `mem, `freeLists, `lists
      ensures Structure()
      ensures |old(lists)| == MAX_ORDER + 1 && lists == old(lists)[order := Drop(old(lists)[order], idx)]
      ensures forall x :: x in lists[order] <==> x in old(lists)[order] && x != idx
      ensures OnlyLinksDiffer(old(mem), mem, Offset(), Elements(old(lists)[order]))
    {
      hide Pow2, BitmapOk, ListOk, OnlyLinksDiffer, FramePtr, Without, PrevOf, NextOf, Drop;
      ghost var i: nat :| i < |lists[order]| && lists[order][i] == idx;
      RemoveOk(mem, Offset(), freeLists, lists, order, i);
      var header := FramePtr(Offset(), idx);
      var next, prev := mem[header], mem[header + 8];
      if prev != NULL_LINK {
        var prevHeader := FramePtr(Offset(), prev);
        mem := mem[prevHeader := next];
      } else {
        freeLists := freeLists[order := if next == NULL_LINK then None else Some(next)];
      }
      if next != NULL_LINK {
        var nextHeader := FramePtr(Offset(), next);
        mem := mem[nextHeader + 8 := prev];
      }
      DropIsWithout(lists[order], i);
      lists := lists[order := Drop(lists[order], idx)];
    }

    // ---------------------------------------------------------------- allocation

    /** `PhysFrame::containing_address(PhysAddr::new(idx_to_phys(idx)))` */
    function IdxToFrame(idx: nat): nat
      reads this
    {
      var addr := basePhys + idx * FRAME_SIZE;
      addr - addr % FRAME_SIZE
    }

    function PhysToIdx(phys: nat): nat
      requires phys >= basePhys
      reads this
    {
      (phys - basePhys) / FRAME_SIZE
    }

    /** Frame addresses and indices correspond one to one. */
    lemma FrameRoundTrip(idx: nat)
      requires basePhys % FRAME_SIZE == 0
      ensures IdxToFrame(idx) == basePhys + idx * FRAME_SIZE >= basePhys
      ensures PhysToIdx(IdxToFrame(idx)) == idx
    {
    }

    /** All frames written since `mem0` belong to `s`, and the lists are right. */
    ghost predicate Working(mem0: Memory, s: set<nat>)
      reads this
    {
      && Structure() && Content(lists, free, seams) && OnlyFramesWritten(mem0, mem, Offset(), s)
    }

    /** Splits `Chunk(idx, from)`, whose frames are all allocated, down to `order`, freeing upper halves. */
    method SplitDown(idx: nat, from: nat, order: nat, ghost mem0: Memory, ghost free0: set<nat>)
      requires order <= from <= MAX_ORDER && Dyadic(Chunk(idx, from)) && Inside(Chunk(idx, from), free0)
      requires Working(mem0, free0) && free == free0 - Frames(Chunk(idx, from))
      requires forall j :: j in free0 ==> j < totalFrames
      modifies `bitmap, `free, `mem, `freeLists, `lists
      ensures Working(mem0, free0)
      ensures Dyadic(Chunk(idx, order)) && Inside(Chunk(idx, order), free0)
      ensures free == free0 - Frames(Chunk(idx, order))
      ensures |old(lists)| == MAX_ORDER + 1 && lists == R.SplitLists(old(lists), idx, from, order)
    {
      hide Pow2, Dyadic, Inside, OnlyLinksDiffer, OnlyFramesWritten, ListsOk, BitmapOk, Content, Frames;
      var allocOrder := from;
      R.ContentShape(lists, free, seams);
      while allocOrder > order
        invariant order <= allocOrder <= from && Dyadic(Chunk(idx, allocOrder)) && Inside(Chunk(idx, allocOrder), free0)
        invariant Working(mem0, free0)
        invariant free == free0 - Frames(Chunk(idx, allocOrder))
        invariant |lists| == MAX_ORDER + 1
        invariant R.SplitLists(lists, idx, allocOrder, order) == R.SplitLists(old(lists), idx, from, order)
      {
        allocOrder := allocOrder - 1;
        var buddy := idx + Pow2(allocOrder);
        R.SplitStep(lists, free, seams, free0, idx, allocOrder);
        RunTracked(Chunk(buddy, allocOrder), free0, totalFrames);
        ghost var free1, lists1, mem1 := free, lists, mem;
        InsertFree(buddy, allocOrder);
        PushedInside(lists1, free1, seams, Chunk(buddy, allocOrder), mem1, mem, Offset(), free0);
        WrittenTransitive(mem0, mem1, mem, Offset(), free0);
      }
    }

    static lemma RunTracked(c: Chunk, s: set<nat>, total: nat)
      requires Inside(c, s) && forall j :: j in s ==> j < total
      ensures End(c) <= total
    {
      assert Has(c, End(c) - 1);
    }

    /** Listing a run of `s` writes only frames of `s`. */
    static lemma PushedInside(ls: seq<seq<nat>>, f: set<nat>, sm: set<Chunk>, c: Chunk, mem1: Memory, mem2: Memory, off: nat, s: set<nat>)
      requires Content(ls, f, sm) && c.order <= MAX_ORDER && Inside(c, s) && f <= s
      requires OnlyLinksDiffer(mem1, mem2, off, {c.idx} + Elements(ls[c.order]))
      ensures OnlyFramesWritten(mem1, mem2, off, s)
    {
      hide OnlyLinksDiffer, OnlyFramesWritten, Content;
      R.ContentShape(ls, f, sm);
      var links := {c.idx} + Elements(ls[c.order]);
      forall y | y in links ensures y in s {
        if y == c.idx { NonEmpty(c); } else { ListedIsFree(ls, f, sm, c.order, y); }
      }
      LinksInFrames(mem1, mem2, off, links, s);
    }

    /** The first non-empty list from `order` upward. */
    method FindOrder(order: nat) returns (k: nat)
      requires Structure() && order <= MAX_ORDER
      ensures |lists| == MAX_ORDER + 1 && k == R.FirstList(lists, order)
    {
      hide BitmapOk, ListOk;
      k := order;
      while k <= MAX_ORDER && freeLists[k].None?
        invariant order <= k <= MAX_ORDER + 1
        invariant R.FirstList(lists, order) == R.FirstList(lists, k)
      {
        ListHead(mem, Offset(), freeLists, lists, k);
        k := k + 1;
      }
      if k <= MAX_ORDER { ListHead(mem, Offset(), freeLists, lists, k); }
    }

    /** Takes an aligned run of `2^order` free frames, or returns `None` exactly when every such run is a
        seam. The lists change as the machine says. */
    method AllocateFrameOrder(order: nat) returns (r: Option<nat>)
      requires Valid()
      modifies `bitmap, `free, `mem, `freeLists, `lists, `live, `allocatedCount, `seams
      ensures Valid()
      ensures r.None? <==> order > 10 || !SomeRun(old(free), old(seams), order)
      ensures r.None? ==> unchanged(this)
      ensures r.Some? ==>
                && R.CanAllocate(old(Machine()), order)
                && Machine() == R.Allocate(old(Machine()), order)
                && var c := R.Chosen(old(Machine()), order);
                   && r.value == basePhys + c.idx * FRAME_SIZE
                   && CanTake(old(ThePool()), c) && ThePool() == Take(old(ThePool()), c)
                   && allocatedCount == old(allocatedCount) + Pow2(order)
      ensures seams <= old(seams)
      ensures Step(old(ThePool()), ThePool())
      ensures OnlyFramesWritten(old(mem), mem, Offset(), old(free))
    {
      hide Pow2, Low, OnlyFramesWritten, ListsOk, BitmapOk, Frames, PoolOk, Content, Sealed, SomeRun, R.SplitLists, R.PoppedLists;
      NothingWritten(mem, Offset(), free);
      if order > MAX_ORDER {
        return None;
      }
      R.ContentShape(lists, free, seams);
      ListsComplete(lists, free, seams, order);
      var k := FindOrder(order);
      if k > MAX_ORDER {
        return None;
      }
      ghost var c := R.Chosen(Machine(), order);
      var idx := TakeFirst(k, order);
      TakeOk(old(ThePool()), c);
      TakeCount(old(ThePool()), c);
      live := live + {c};
      allocatedCount := allocatedCount + Pow2(order);
      FrameRoundTrip(idx);
      return Some(IdxToFrame(idx));
    }

    /** Pops the first run of list `k` and splits it down to `order`. */
    method TakeFirst(k: nat, order: nat) returns (idx: nat)
      requires Structure() && Content(lists, free, seams) && Sealed(seams, usable)
      requires order <= k <= MAX_ORDER && lists[k] != []
      modifies `bitmap, `free, `mem, `freeLists, `lists, `seams
      ensures Structure() && Content(lists, free, seams) && Sealed(seams, usable) && seams <= old(seams)
      ensures idx == old(lists)[k][0] && Dyadic(Chunk(idx, order)) && Inside(Chunk(idx, order), old(free))
      ensures lists == R.SplitLists(R.PoppedLists(old(lists), k), idx, k, order)
      ensures free == old(free) - Frames(Chunk(idx, order))
      ensures OnlyFramesWritten(old(mem), mem, Offset(), old(free))
    {
      hide Pow2, Dyadic, Inside, OnlyLinksDiffer, OnlyFramesWritten, ListsOk, BitmapOk, Content, Frames, Canonical, R.SplitLists;
      R.ContentShape(lists, free, seams);
      PopReady(lists, free, seams, k, totalFrames);
      ghost var free0, mem0, lists0 := free, mem, lists;
      ghost var d := Chunk(lists[k][0], k);
      var popped := PopFree(k);
      idx := popped.value;
      PopDone(lists0, lists, free0, seams, k, idx, mem0, mem, Offset());
      seams := seams - {Parent(d)};
      SplitDown(idx, k, order, mem0, free0);
    }

    static lemma NothingWritten(m: Memory, off: nat, s: set<nat>)
      ensures OnlyFramesWritten(m, m, off, s)
    {
    }

    static lemma PopReady(ls: seq<seq<nat>>, f: set<nat>, sm: set<Chunk>, k: nat, total: nat)
      requires Content(ls, f, sm) && k <= MAX_ORDER && forall j :: j in f ==> j < total
      ensures forall i :: i in ls[k] ==> End(Chunk(i, k)) <= total
    {
      hide Content;
      R.ContentShape(ls, f, sm);
      forall i | i in ls[k] ensures End(Chunk(i, k)) <= total {
        ListedIsFree(ls, f, sm, k, i);
        RunTracked(Chunk(i, k), f, total);
      }
    }

    static lemma PopDone(ls: seq<seq<nat>>, ls': seq<seq<nat>>, f: set<nat>, sm: set<Chunk>, k: nat, idx: nat,
                         mem1: Memory, mem2: Memory, off: nat)
      requires Content(ls, f, sm) && k <= MAX_ORDER && idx in ls[k] && |ls'| == |ls|
      requires forall m: nat :: m <= MAX_ORDER && m != k ==> ls'[m] == ls[m]
      requires forall x :: x in ls'[k] <==> x in ls[k] && x != idx
      requires OnlyLinksDiffer(mem1, mem2, off, Elements(ls[k]))
      ensures var c := Chunk(idx, k);
              Content(ls', f - Frames(c), sm - {Parent(c)}) && Dyadic(c) && Inside(c, f)
      ensures OnlyFramesWritten(mem1, mem2, off, f)
    {
      hide Low, OnlyLinksDiffer, OnlyFramesWritten, Parent, Content;
      R.ContentShape(ls, f, sm);
      ListedIsFree(ls, f, sm, k, idx);
      PopContent(ls, ls', f, sm, Chunk(idx, k));
      forall y | y in ls[k] ensures y in f { ListedIsFree(ls, f, sm, k, y); }
      LinksInFrames(mem1, mem2, off, Elements(ls[k]), f);
    }

    // ---------------------------------------------------------------- deallocation

    static lemma SpanInside(c: Chunk, f: set<nat>, total: nat)
      requires forall j :: j in f ==> j < total
      ensures Inside(c, f) <==> End(c) <= total && Span(c.idx, Pow2(c.order)) <= f
    {
      SpanIsFrames(c.idx, c.order);
      FramesHas(c);
      if Inside(c, f) { assert Has(c, End(c) - 1); }
    }

    /** Coalesces the run `Chunk(idx0, order0)` upward while its buddy is free. */
    method CoalesceUp(idx0: nat, order0: nat, ghost mem0: Memory, ghost free0: set<nat>)
      returns (idx: nat, order: nat)
      requires var c0 := Chunk(idx0, order0);
               && R.Grown(c0, c0, free0, free0) && free == free0 && free0 + Frames(c0) <= usable
               && Working(mem0, free0 + Frames(c0)) && Sealed(seams, usable)
      modifies `bitmap, `free, `mem, `freeLists, `lists, `seams
      ensures var c0, c := Chunk(idx0, order0), Chunk(idx, order);
              && R.Grown(c0, c, free0, free)
              && Working(mem0, free0 + Frames(c0)) && Sealed(seams, usable)
              && (order < MAX_ORDER ==> !Inside(Buddy(c), free))
      ensures order0 <= MAX_ORDER && |old(lists)| == MAX_ORDER + 1
      ensures (lists, Chunk(idx, order)) == R.Coalesced(old(lists), free0, Chunk(idx0, order0))
      ensures seams <= old(seams)
    {
      hide Pow2, Inside, OnlyLinksDiffer, OnlyFramesWritten, ListsOk, BitmapOk, Content, Frames, Xor, R.Grown, Parent, Canonical;
      ghost var c0 := Chunk(idx0, order0);
      idx, order := idx0, order0;
      R.ContentShape(lists, free, seams);
      GrownOrder(c0, c0, free0, free0);
      while order < MAX_ORDER
        invariant order <= MAX_ORDER && |lists| == MAX_ORDER + 1
        invariant Working(mem0, free0 + Frames(c0)) && Sealed(seams, usable)
        invariant R.Grown(c0, Chunk(idx, order), free0, free)
        invariant R.Coalesced(lists, free, Chunk(idx, order)) == R.Coalesced(old(lists), free0, c0)
        invariant seams <= old(seams)
        decreases MAX_ORDER - order
      {
        ghost var c := Chunk(idx, order);
        var buddy := Xor(idx, Pow2(order));
        assert Buddy(c) == Chunk(buddy, order);
        SpanInside(Buddy(c), free, totalFrames);
        if buddy >= totalFrames {
          NotInsideBeyond(Buddy(c), free, totalFrames);
          break;
        }
        var rangeFree := IsRangeFree(buddy, Pow2(order));
        if !rangeFree {
          break;
        }
        R.GrownTest(lists, free, seams, usable, free0, c0, c);
        GrownNext(c);
        Absorb(buddy, order, mem0, free0, c0, c);
        idx := if idx < buddy then idx else buddy;
        order := order + 1;
      }
    }

    static lemma GrownOrder(c0: Chunk, c: Chunk, free0: set<nat>, f: set<nat>)
      requires R.Grown(c0, c, free0, f)
      ensures c.order <= MAX_ORDER && Dyadic(c)
    {
    }

    static lemma GrownNext(c: Chunk)
      ensures c.order < MAX_ORDER && Dyadic(c) ==>
                Parent(c) == Chunk(if c.idx < Buddy(c).idx then c.idx else Buddy(c).idx, c.order + 1)
    {
      hide Buddy, Parent, Low;
      if c.order < MAX_ORDER && Dyadic(c) {
        ParentAndBuddy(c);
        ParentOrder(c);
      }
    }

    /** Takes the free buddy of `c` out of its list and its frames out of the free set. */
    method Absorb(buddy: nat, order: nat, ghost mem0: Memory, ghost free0: set<nat>, ghost c0: Chunk, ghost c: Chunk)
      requires Working(mem0, free0 + Frames(c0)) && Sealed(seams, usable) && R.Grown(c0, c, free0, free)
      requires c.order == order < MAX_ORDER && Buddy(c) == Chunk(buddy, order) && Inside(Buddy(c), free)
      requires |lists| == MAX_ORDER + 1 && buddy in lists[order]
      modifies `bitmap, `free, `mem, `freeLists, `lists, `seams
      ensures Working(mem0, free0 + Frames(c0)) && Sealed(seams, usable) && R.Grown(c0, Parent(c), free0, free)
      ensures lists == R.DropBuddy(old(lists), c) && free == old(free) - Frames(Buddy(c)) && seams <= old(seams)
      ensures Dyadic(c)
    {
      hide Pow2, Inside, OnlyLinksDiffer, OnlyFramesWritten, ListsOk, BitmapOk, Content, Frames, Buddy, R.Grown, Parent, Canonical, Drop;
      GrownOrder(c0, c, free0, free);
      RunTracked(Buddy(c), free, totalFrames);
      ghost var lists1, mem1, free1 := lists, mem, free;
      RemoveFree(buddy, order);
      SpanIsFrames(buddy, order);
      MarkRangeAllocated(buddy, Pow2(order));
      R.MergeStep(lists1, lists, free1, seams, free0, c0, c);
      UnlinkedInside(lists1, free1, seams, order, mem1, mem, Offset(), free0 + Frames(c0), c0, c, free0);
      WrittenTransitive(mem0, mem1, mem, Offset(), free0 + Frames(c0));
      seams := seams - {Parent(c)};
    }

    static lemma UnlinkedInside(ls: seq<seq<nat>>, f: set<nat>, sm: set<Chunk>, k: nat, mem1: Memory, mem2: Memory, off: nat,
                                s: set<nat>, c0: Chunk, c: Chunk, free0: set<nat>)
      requires Content(ls, f, sm) && k <= MAX_ORDER && R.Grown(c0, c, free0, f) && s == free0 + Frames(c0)
      requires OnlyLinksDiffer(mem1, mem2, off, Elements(ls[k]))
      ensures OnlyFramesWritten(mem1, mem2, off, s)
    {
      hide OnlyLinksDiffer, OnlyFramesWritten, Content, Frames;
      R.ContentShape(ls, f, sm);
      forall y | y in Elements(ls[k]) ensures y in s { ListedIsFree(ls, f, sm, k, y); }
      LinksInFrames(mem1, mem2, off, Elements(ls[k]), s);
    }

    static lemma NotInsideBeyond(c: Chunk, f: set<nat>, total: nat)
      requires (forall j :: j in f ==> j < total) && c.idx >= total
      ensures !Inside(c, f)
    {
      NonEmpty(c);
    }

    /** Returns a live run; every buddy that is free is merged, up to order 10. The lists change as the
        machine says, and every buddy that passes the bitmap test is in the list of its order. */
    method DeallocateFrameOrder(frame: nat, order: nat)
      requires Valid()
      requires order <= MAX_ORDER ==> frame >= basePhys && Chunk(PhysToIdx(frame), order) in live
      modifies `bitmap, `free, `mem, `freeLists, `lists, `live, `allocatedCount, `seams
      ensures Valid()
      ensures order > MAX_ORDER ==> unchanged(this)
      ensures order <= MAX_ORDER ==>
                var c := Chunk(old(PhysToIdx(frame)), order);
                && R.CanDeallocate(old(Machine()), c)
                && Machine() == R.Deallocate(old(Machine()), c)
                && ThePool() == Give(old(ThePool()), c)
                && allocatedCount + Pow2(order) == old(allocatedCount)
                && OnlyFramesWritten(old(mem), mem, Offset(), old(free) + Frames(c))
      ensures seams <= old(seams)
      ensures Step(old(ThePool()), ThePool())
    {
      hide Pow2, OnlyFramesWritten, ListsOk, BitmapOk, Content, Frames, PoolOk, Buddy, R.Grown, Sealed, Inside, OnlyLinksDiffer, R.Coalesced;
      if order > MAX_ORDER {
        return;
      }
      ghost var c := Chunk(PhysToIdx(frame), order);
      R.LiveIsGrown(ThePool(), c);
      GiveOk(ThePool(), c);
      GiveCount(ThePool(), c);
      R.ContentShape(lists, free, seams);
      allocatedCount := allocatedCount - Pow2(order);
      NothingWritten(mem, Offset(), free + Frames(c));
      ghost var free0, mem0 := free, mem;
      var idx, order' := CoalesceUp(PhysToIdx(frame), order, mem0, free0);
      ghost var d := Chunk(idx, order');
      ReturnReady(lists, free, seams, free0, c, d, usable, totalFrames);
      ghost var lists1, mem1, free1 := lists, mem, free;
      InsertFree(idx, order');
      ReturnDone(lists1, free1, seams, free0, c, d, mem1, mem, Offset());
      WrittenTransitive(mem0, mem1, mem, Offset(), free0 + Frames(c));
      live := live - {c};
    }

    static lemma ReturnReady(ls: seq<seq<nat>>, f: set<nat>, sm: set<Chunk>, free0: set<nat>, c: Chunk, d: Chunk, usable0: set<nat>, total: nat)
      requires Content(ls, f, sm) && R.Grown(c, d, free0, f) && free0 <= usable0 && Frames(c) <= usable0
      requires forall j :: j in usable0 ==> j < total
      ensures |ls| == MAX_ORDER + 1 && Dyadic(d) && d.order <= MAX_ORDER && End(d) <= total
      ensures forall k: nat :: k <= MAX_ORDER ==> d.idx !in ls[k]
    {
      hide Content, Low;
      R.ContentShape(ls, f, sm);
      FramesHas(d);
      assert Has(d, End(d) - 1) && End(d) - 1 in Frames(d);
      forall k: nat | k <= MAX_ORDER ensures d.idx !in ls[k] { NotListed(ls, f, sm, d, k); }
    }

    static lemma ReturnDone(ls: seq<seq<nat>>, f: set<nat>, sm: set<Chunk>, free0: set<nat>, c: Chunk, d: Chunk,
                            mem1: Memory, mem2: Memory, off: nat)
      requires Content(ls, f, sm) && R.Grown(c, d, free0, f)
      requires d.order < MAX_ORDER ==> !Inside(Buddy(d), f)
      requires OnlyLinksDiffer(mem1, mem2, off, {d.idx} + Elements(ls[d.order]))
      ensures Content(ls[d.order := [d.idx] + ls[d.order]], f + Frames(d), sm)
      ensures f + Frames(d) == free0 + Frames(c)
      ensures OnlyFramesWritten(mem1, mem2, off, free0 + Frames(c))
    {
      hide Low, OnlyLinksDiffer, OnlyFramesWritten, Buddy, Content;
      R.ContentShape(ls, f, sm);
      PushContent(ls, f, sm, d);
      FramesHas(d);
      PushedInside(ls, f, sm, d, mem1, mem2, off, free0 + Frames(c));
    }

    /** What `free_frames` reports: the free frames, plus every tracked frame that is not usable. */
    method FreeFrames() returns (n: nat)
      requires Valid()
      ensures n == |free| + (totalFrames - |usable|)
      ensures n == |free| <==> forall j: nat :: j < totalFrames ==> j in usable
    {
      CountAll(usable, totalFrames);
      n := totalFrames - allocatedCount;
    }

    static lemma CountAll(s: set<nat>, total: nat)
      requires forall j :: j in s ==> j < total
      ensures |s| <= total
      ensures |s| == total <==> forall j: nat :: j < total ==> j in s
    {
      var all := Span(0, total);
      assert forall j: nat :: InSpan(0, total, j) <==> j < total;
      IntervalSize(0, total, all);
      SubsetSize(s, all);
      if j: nat :| j < total && j !in s {
        assert InSpan(0, total, j);
        SubsetSize(s + {j}, all);
      } else {
        assert s == all;
      }
    }

    // ---------------------------------------------------------------- construction

    /** `(idx & ((1 << order) - 1)) == 0` */
    static predicate IsAlignedForOrder(idx: nat, order: nat) {
      And(idx, Pow2(order) - 1) == 0
    }

    /** The order of the run carved at `pos`: the largest that is aligned and fits. */
    static method PickOrder(r: Region, pos: nat) returns (order: nat)
      requires pos < r.end
      ensures PickedOrder(r, pos, order)
    {
      hide And, Pow2, FloorLog2;
      var remaining := r.end - pos;
      FloorLog2Bounds(remaining);
      order := if FloorLog2(remaining) < MAX_ORDER then FloorLog2(remaining) else MAX_ORDER;
      Pow2Monotone(order, FloorLog2(remaining));
      forall k: nat | order < k <= MAX_ORDER ensures pos + Pow2(k) > r.end {
        Pow2Monotone(FloorLog2(remaining) + 1, k);
        Pow2Double(FloorLog2(remaining));
      }
      AndLowMask(pos, order);
      while order > 0 && !IsAlignedForOrder(pos, order)
        invariant order <= MAX_ORDER && pos + Pow2(order) <= r.end
        invariant IsAlignedForOrder(pos, order) <==> Low(pos, order) == 0
        invariant forall k: nat :: order < k <= MAX_ORDER ==> Low(pos, k) != 0 || pos + Pow2(k) > r.end
      {
        Pow2Monotone(order - 1, order);
        AndLowMask(pos, order - 1);
        order := order - 1;
      }
    }

    static lemma Pow2Double(k: nat)
      ensures Pow2(k + 1) == 2 * Pow2(k)
    {
    }

    /** Carves region `n` into maximal runs. */
    method CarveRegion(r: Region, ghost regions: seq<Region>, ghost n: nat)
      requires Structure() && n < |regions| && regions[n] == r && Separate(regions)
      requires free == UsableFrames(regions) && ListsCarved(lists, regions, n, 0)
      modifies `bitmap, `free, `mem, `freeLists, `lists
      ensures Structure() && free == old(free)
      ensures ListsCarved(lists, regions, n + 1, 0)
    {
      hide Pow2, Low, Canonical, OnlyLinksDiffer, ListOk, BitmapOk, Frames, UsableFrames, Carved, NoStraddle, PickedOrder, CarvedBefore, Separate;
      var pos := r.start;
      StartNoStraddle(r);
      forall k: nat, i: nat | k <= MAX_ORDER
        ensures CarvedBefore(regions, n, r.start, Chunk(i, k)) <==> CarvedBefore(regions, n, 0, Chunk(i, k))
      {
        RegionStart(regions, n, 0, Chunk(i, k));
      }
      while pos < r.end
        invariant r.start <= pos
        invariant Structure() && free == old(free) && NoStraddle(r, pos)
        invariant ListsCarved(lists, regions, n, pos)
        decreases r.end - pos
      {
        var order := PickOrder(r, pos);
        PickFacts(r, regions, n, pos, order, totalFrames, free);
        var f := IsFree(pos);
        if f {
          forall k: nat | k <= MAX_ORDER ensures pos !in lists[k] { CarveFresh(lists, regions, n, pos, k); }
          CarveAdvance(lists, regions, n, pos, order);
          InsertFree(pos, order);
        }
        pos := pos + Pow2(order);
      }
      forall k: nat, i: nat | k <= MAX_ORDER
        ensures CarvedBefore(regions, n, pos, Chunk(i, k)) <==> CarvedBefore(regions, n + 1, 0, Chunk(i, k))
      {
        RegionDone(regions, n, pos, Chunk(i, k));
      }
    }

    static lemma PickFacts(r: Region, regions: seq<Region>, n: nat, pos: nat, order: nat, total: nat, f: set<nat>)
      requires n < |regions| && regions[n] == r && r.start <= pos < r.end && PickedOrder(r, pos, order)
      requires f == UsableFrames(regions) && forall j :: j in f ==> j < total
      ensures Dyadic(Chunk(pos, order)) && End(Chunk(pos, order)) <= total
      ensures pos in f && InRegion(r, pos) && f + Frames(Chunk(pos, order)) == f
    {
      hide Low, Pow2;
      var c := Chunk(pos, order);
      FramesHas(c);
      forall j | j in Frames(c) ensures j in f {
        assert InRegion(regions[n], j);
      }
      assert InRegion(regions[n], pos);
      if Pow2(order) > 0 { assert Has(c, End(c) - 1) && End(c) - 1 in Frames(c); }
    }

    /** Marks the tracked frames of one region free. */
    method MarkRegion(startIdx: nat, endIdx: nat, ghost regions: seq<Region>, ghost n: nat)
      requires BitmapOk(bitmap, free) && totalFrames <= MAX_TRACKED_FRAMES && startIdx <= endIdx
      requires n < |regions| && regions[n] == Clipped(startIdx, endIdx, totalFrames)
      requires free == UsableFrames(regions[..n])
      modifies `bitmap, `free
      ensures BitmapOk(bitmap, free) && free == UsableFrames(regions[..n + 1])
    {
      hide BitmapOk, UsableFrames;
      for idx := startIdx to endIdx
        invariant BitmapOk(bitmap, free)
        invariant free == UsableFrames(regions[..n]) + RegionFrames(Clipped(startIdx, idx, totalFrames))
      {
        if idx < totalFrames {
          MarkFree(idx);
        }
        ClippedGrows(startIdx, idx, totalFrames);
      }
      OneMoreRegion(regions, n);
    }

    static lemma ClippedGrows(start: nat, idx: nat, total: nat)
      requires start <= idx
      ensures RegionFrames(Clipped(start, idx + 1, total)) ==
              RegionFrames(Clipped(start, idx, total)) + if idx < total then {idx} else {}
    {
      var a, b := Clipped(start, idx + 1, total), Clipped(start, idx, total);
      forall j: nat ensures InRegion(a, j) <==> InRegion(b, j) || (idx < total && j == idx) { }
    }

    static lemma OneMoreRegion(regions: seq<Region>, n: nat)
      requires n < |regions|
      ensures UsableFrames(regions[..n + 1]) == UsableFrames(regions[..n]) + RegionFrames(regions[n])
    {
      var a, b := regions[..n + 1], regions[..n];
      forall j ensures j in UsableFrames(a) <==> j in UsableFrames(b) || j in RegionFrames(regions[n]) {
        if j in UsableFrames(a) {
          var i: nat :| i < |a| && j >= 0 && InRegion(a[i], j);
          if i < n { assert InRegion(b[i], j); }
        }
        if j in UsableFrames(b) {
          var i: nat :| i < |b| && j >= 0 && InRegion(b[i], j);
          assert InRegion(a[i], j);
        }
        if j in RegionFrames(regions[n]) { assert InRegion(a[n], j); }
      }
    }

    /** The lowest start and the highest end of the usable regions. */
    static method ScanRegions(regions: seq<MemoryRegion>) returns (base: nat, lastEnd: nat, found: bool)
      requires MapOk(regions)
      ensures found <==> exists i: nat :: i < |regions| && regions[i].usable
      ensures found ==> base % FRAME_SIZE == 0 && base <= lastEnd
      ensures found ==> Bounds(regions, base, lastEnd)
    {
      base, lastEnd, found := U64_MAX, 0, false;
      for n := 0 to |regions|
        invariant found <==> exists i: nat :: i < n && regions[i].usable
        invariant found ==> base % FRAME_SIZE == 0 && base <= lastEnd
        invariant !found ==> base == U64_MAX && lastEnd == 0
        invariant found ==> exists i: nat :: i < n && regions[i].usable && regions[i].start == base
        invariant found ==> exists i: nat :: i < n && regions[i].usable && regions[i].end == lastEnd
        invariant forall i: nat :: i < n && regions[i].usable ==> base <= regions[i].start && regions[i].end <= lastEnd
      {
        if regions[n].usable {
          if !found {
            assert regions[n].start <= base && lastEnd <= regions[n].end;
          }
          found := true;
          base := if regions[n].start < base then regions[n].start else base;
          lastEnd := if lastEnd < regions[n].end then regions[n].end else lastEnd;
        }
      }
    }

    /** Builds the allocator from a boot memory map. The lists hold the maximal runs of each region; they
        are the canonical decomposition of all usable frames exactly when no managed run of usable
        frames crosses a region boundary. */
    constructor New(regions: seq<MemoryRegion>, physicalMemoryOffset: nat, memory: Memory)
      requires MapOk(regions)
      requires exists i: nat :: i < |regions| && regions[i].usable
      ensures physMemOffset == physicalMemoryOffset
      ensures Tracks(regions, basePhys, totalFrames)
      ensures var rs := FrameRegions(regions, basePhys, totalFrames);
              && free == usable == UsableFrames(rs) && live == {} && allocatedCount == 0
              && Structure()
              && (forall k: nat, i: nat :: k <= MAX_ORDER ==> (i in lists[k] <==> Carved(rs, Chunk(i, k))))
              && (R.AlwaysExact(Machine()) <==> HalvesInRegions(rs))
              && (HalvesInRegions(rs) ==> Valid() && seams == Seams(rs))
              && (Content(lists, free, {}) <==> MergeFree(rs))
              && (MergeFree(rs) ==> Valid() && seams == {})
      ensures MapGapped(regions) ==> Valid() && seams == {}
    {
      hide MapGapped, Gapped, Content, MergeFree, Carved, ListsCarved, UsableFrames, FrameRegions, BitmapOk, ListsOk,
        PoolOk, Separate, MapOk, HalvesInRegions, Seams, R.AlwaysExact, Sealed;
      var base, lastEnd, found := ScanRegions(regions);
      freeLists := seq(MAX_ORDER + 1, _ => None);
      bitmap := seq(BITMAP_LEN, _ => 0);
      basePhys := base;
      physMemOffset := physicalMemoryOffset;
      allocatedCount := 0;
      mem := memory;
      var frames := (lastEnd - base) / FRAME_SIZE;
      totalFrames := if frames > MAX_TRACKED_FRAMES then MAX_TRACKED_FRAMES else frames;
      lists := seq(MAX_ORDER + 1, _ => []);
      free, usable, live, seams := {}, {}, {}, {};
      new;
      ghost var rs := FrameRegions(regions, basePhys, totalFrames);
      EmptyBitmap(bitmap);
      MarkUsable(regions, rs);
      CarveAll(regions, rs);
      usable, seams := free, Seams(rs);
      FrameRegionsSeparate(regions, basePhys, totalFrames);
      Finished(rs, mem, Offset(), freeLists, lists, free);
      if MapGapped(regions) {
        MapGappedIsGapped(regions, basePhys, totalFrames);
        GappedIsMergeFree(rs);
      }
    }

    method MarkUsable(regions: seq<MemoryRegion>, ghost rs: seq<Region>)
      requires BitmapOk(bitmap, free) && free == {} && totalFrames <= MAX_TRACKED_FRAMES
      requires MapOk(regions) && rs == FrameRegions(regions, basePhys, totalFrames)
      requires forall i: nat :: i < |regions| && regions[i].usable ==> basePhys <= regions[i].start
      modifies `bitmap, `free
      ensures BitmapOk(bitmap, free) && free == UsableFrames(rs)
    {
      hide BitmapOk, UsableFrames;
      NoFrames(rs);
      for n := 0 to |regions|
        invariant BitmapOk(bitmap, free) && free == UsableFrames(rs[..n])
      {
        if regions[n].usable {
          var startIdx := (regions[n].start - basePhys) / FRAME_SIZE;
          var endIdx := (regions[n].end - basePhys) / FRAME_SIZE;
          MarkRegion(startIdx, endIdx, rs, n);
        } else {
          OneMoreRegion(rs, n);
          assert RegionFrames(rs[n]) == {};
        }
      }
      assert rs[..|regions|] == rs;
    }

    static lemma NoFrames(rs: seq<Region>)
      ensures UsableFrames(rs[..0]) == {}
    {
    }

    method CarveAll(regions: seq<MemoryRegion>, ghost rs: seq<Region>)
      requires MapOk(regions) && rs == FrameRegions(regions, basePhys, totalFrames)
      requires totalFrames <= MAX_TRACKED_FRAMES && basePhys % FRAME_SIZE == 0
      requires BitmapOk(bitmap, free) && free == UsableFrames(rs)
      requires |lists| == |freeLists| == MAX_ORDER + 1
      requires forall k: nat :: k <= MAX_ORDER ==> lists[k] == [] && freeLists[k].None?
      requires forall i: nat :: i < |regions| && regions[i].usable ==> basePhys <= regions[i].start
      modifies `bitmap, `free, `mem, `freeLists, `lists
      ensures Structure() && free == old(free)
      ensures ListsCarved(lists, rs, |rs|, 0)
    {
      hide BitmapOk, UsableFrames, CarvedBefore, Separate, ListsCarved, Linked;
      FrameRegionsSeparate(regions, basePhys, totalFrames);
      FrameRegionsTracked(regions, basePhys, totalFrames);
      EmptyLists(mem, Offset(), freeLists, lists);
      NoneCarved(lists, rs);
      for n := 0 to |regions|
        invariant Structure() && free == old(free)
        invariant ListsCarved(lists, rs, n, 0)
      {
        if regions[n].usable {
          var pos := (regions[n].start - basePhys) / FRAME_SIZE;
          var end := (regions[n].end - basePhys) / FRAME_SIZE;
          if pos >= totalFrames {
            SkipEmpty(lists, rs, n);
            continue;
          }
          if end > totalFrames {
            end := totalFrames;
          }
          CarveRegion(Region(pos, end), rs, n);
        } else {
          SkipEmpty(lists, rs, n);
        }
      }
    }

    static lemma EmptyLists(m: Memory, off: nat, heads: seq<Option<nat>>, ls: seq<seq<nat>>)
      requires |ls| == |heads| == MAX_ORDER + 1
      requires forall k: nat :: k <= MAX_ORDER ==> ls[k] == [] && heads[k].None?
      ensures ListsOk(m, off, heads, ls)
    {
    }

    static lemma NoneCarved(ls: seq<seq<nat>>, rs: seq<Region>)
      requires |ls| == MAX_ORDER + 1 && forall k: nat :: k <= MAX_ORDER ==> ls[k] == []
      ensures ListsCarved(ls, rs, 0, 0)
    {
      hide CarvedBefore;
      NothingCarved(ls, rs);
      if |rs| > 0 {
        forall k: nat, i: nat | k <= MAX_ORDER
          ensures CarvedBefore(rs, 0, 0, Chunk(i, k)) <==> CarvedBefore(rs, 0, rs[0].start, Chunk(i, k))
        {
          RegionStart(rs, 0, 0, Chunk(i, k));
        }
      }
    }

    /** A region with no tracked frame has nothing to carve. */
    static lemma SkipEmpty(ls: seq<seq<nat>>, rs: seq<Region>, n: nat)
      requires n < |rs| && rs[n].end <= rs[n].start && ListsCarved(ls, rs, n, 0)
      ensures ListsCarved(ls, rs, n + 1, 0)
    {
      hide CarvedBefore;
      forall k: nat, i: nat | k <= MAX_ORDER
        ensures CarvedBefore(rs, n, 0, Chunk(i, k)) <==> CarvedBefore(rs, n + 1, 0, Chunk(i, k))
      {
        RegionStart(rs, n, 0, Chunk(i, k));
        RegionDone(rs, n, rs[n].start, Chunk(i, k));
      }
    }

    static lemma Finished(rs: seq<Region>, m: Memory, off: nat, heads: seq<Option<nat>>, ls: seq<seq<nat>>, f: set<nat>)
      requires ListsOk(m, off, heads, ls) && ListsCarved(ls, rs, |rs|, 0) && Separate(rs) && f == UsableFrames(rs)
      ensures forall k: nat, i: nat :: k <= MAX_ORDER ==> (i in ls[k] <==> Carved(rs, Chunk(i, k)))
      ensures R.AlwaysExact(R.State(ls, f, {})) <==> HalvesInRegions(rs)
      ensures HalvesInRegions(rs) ==> Content(ls, f, Seams(rs)) && Sealed(Seams(rs), f)
      ensures Content(ls, f, {}) <==> MergeFree(rs)
      ensures MergeFree(rs) ==> HalvesInRegions(rs) && Seams(rs) == {}
      ensures PoolOk(Pool(f, f, {}))
    {
      hide UsableFrames, CarvedBefore, MergeFree, Carved, Separate, HalvesInRegions, R.AlwaysExact, Content, Seams, Sealed;
      AllCarved(ls, rs);
      CarvedContent(rs, ls, f);
      if MergeFree(rs) { MergeFreeHalves(rs); }
      FreshLists(rs, m, off, heads, ls, f);
      var s := R.State(ls, f, {});
      R.AlwaysExactIff(s, rs);
      if HalvesInRegions(rs) { R.FreshOk(s, rs); }
    }

    static lemma FreshLists(rs: seq<Region>, m: Memory, off: nat, heads: seq<Option<nat>>, ls: seq<seq<nat>>, f: set<nat>)
      requires ListsOk(m, off, heads, ls) && f == UsableFrames(rs)
      requires forall k: nat, i: nat :: k <= MAX_ORDER ==> (i in ls[k] <==> Carved(rs, Chunk(i, k)))
      ensures R.Fresh(R.State(ls, f, {}), rs)
    {
      hide UsableFrames, Carved;
      forall k: nat | k < |ls| ensures Distinct(ls[k]) { assert ListOk(m, off, heads, ls, k); }
    }

    static lemma CarvedContent(rs: seq<Region>, ls: seq<seq<nat>>, f: set<nat>)
      requires |ls| == MAX_ORDER + 1 && Separate(rs) && f == UsableFrames(rs)
      requires forall k: nat, i: nat :: k <= MAX_ORDER ==> (i in ls[k] <==> Carved(rs, Chunk(i, k)))
      ensures Content(ls, f, {}) <==> MergeFree(rs)
    {
      hide Canonical, UsableFrames, MergeFree, Carved, Separate, Content;
      CarvingIsCanonicalIff(rs);
      ContentCanonical(ls, f);
      if Content(ls, f, {}) {
        forall c: Chunk ensures Carved(rs, c) <==> Canonical(c, f) {
          OnlyManaged(rs, c, f);
          if c.order <= MAX_ORDER {
            assert c == Chunk(c.idx, c.order);
            assert c.idx in ls[c.order] <==> Carved(rs, c);
          }
        }
      }
    }

    static lemma OnlyManaged(rs: seq<Region>, c: Chunk, f: set<nat>)
      ensures Carved(rs, c) || Canonical(c, f) ==> c.order <= MAX_ORDER
    {
    }
  }
}
