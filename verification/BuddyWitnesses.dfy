/** Boot memory maps on which `new` builds allocators with the properties their contracts leave open:
    touching regions that make a bitmap test fail, touching regions that do not, and a hole that
    `free_frames` reports as free. */
module BuddyWitnesses {
  import opened Bits
  import opened BuddyBlocks
  import opened BuddyLists
  import opened BuddyPool
  import opened BuddyCarve
  import opened BuddyFrames
  import R = BuddyRuns

  /** Frames 0 and 1 in one region, frames 2 and 3 in a region each. */
  function CrossedMap(): seq<MemoryRegion> {
    [MemoryRegion(0, 8192, true), MemoryRegion(8192, 12288, true), MemoryRegion(12288, 16384, true)]
  }

  /** Two frames in a region each. */
  function SeamMap(): seq<MemoryRegion> {
    [MemoryRegion(0, 4096, true), MemoryRegion(4096, 8192, true)]
  }

  /** Two frames with an unusable one between them. */
  function HoleMap(): seq<MemoryRegion> {
    [MemoryRegion(0, 4096, true), MemoryRegion(4096, 8192, false), MemoryRegion(8192, 12288, true)]
  }

  lemma CrossedRegions()
    ensures Bounds(CrossedMap(), 0, 16384) && MapOk(CrossedMap())
    ensures FrameRegions(CrossedMap(), 0, 4) == [Region(0, 2), Region(2, 3), Region(3, 4)]
    ensures !HalvesInRegions(FrameRegions(CrossedMap(), 0, 4))
  {
    assert CrossedMap()[0].usable && CrossedMap()[2].usable;
    hide Low, Parent;
    var rs := FrameRegions(CrossedMap(), 0, 4);
    assert rs == [Region(0, 2), Region(2, 3), Region(3, 4)];
    var c := Chunk(2, 1);
    SmallRuns();
    forall j: nat | Has(Chunk(0, 2), j) ensures j in UsableFrames(rs) {
      assert InRegion(rs[0], j) || InRegion(rs[1], j) || InRegion(rs[2], j);
    }
    forall i: nat | i < |rs| ensures !Inside(c, RegionFrames(rs[i])) {
      InsideRegion(c, rs[i]);
    }
  }

  lemma SmallRuns()
    ensures Pow2(1) == 2 && Pow2(2) == 4
    ensures Dyadic(Chunk(0, 1)) && Dyadic(Chunk(2, 1)) && Parent(Chunk(2, 1)) == Chunk(0, 2)
  {
    assert Low(2, 1) == 0 && Low(1, 1) == 1;
    assert Low(2, 2) == 2;
  }

  /** A memory map from which some run of calls returns a run whose buddy passes the bitmap test and is in
      no list. */
  method CrossedAllocator(memory: Memory) returns (a: BuddyAllocator)
    ensures fresh(a) && !R.AlwaysExact(a.Machine())
  {
    hide R.AlwaysExact, HalvesInRegions, MapOk, FrameRegions, Carved, UsableFrames, MergeFree, MapGapped;
    CrossedRegions();
    assert CrossedMap()[0].usable;
    a := new BuddyAllocator.New(CrossedMap(), 0, memory);
    TracksOnly(CrossedMap(), a.basePhys, a.totalFrames, 0, 16384);
  }

  lemma SeamRegions()
    ensures Bounds(SeamMap(), 0, 8192) && MapOk(SeamMap())
    ensures FrameRegions(SeamMap(), 0, 2) == [Region(0, 1), Region(1, 2)]
    ensures HalvesInRegions(FrameRegions(SeamMap(), 0, 2)) && !MergeFree(FrameRegions(SeamMap(), 0, 2))
  {
    hide HalvesInRegions, MergeFree;
    assert SeamMap()[0].usable && SeamMap()[1].usable;
    var rs := FrameRegions(SeamMap(), 0, 2);
    assert rs == [Region(0, 1), Region(1, 2)];
    SeamHalves(rs);
    SeamCrosses(rs);
  }

  lemma SeamFrames(rs: seq<Region>, j: nat)
    requires rs == [Region(0, 1), Region(1, 2)]
    ensures j in UsableFrames(rs) <==> j < 2
  {
    if j < 2 { assert InRegion(rs[j], j); }
  }

  /** A usable run of at least two frames is the whole map, so its halves are single frames. */
  lemma SeamHalves(rs: seq<Region>)
    requires rs == [Region(0, 1), Region(1, 2)]
    ensures HalvesInRegions(rs)
  {
    hide Low, Parent, UsableFrames, InOneRegion, Dyadic;
    forall c: Chunk | Dyadic(c) && c.order < MAX_ORDER && Inside(Parent(c), UsableFrames(rs)) ensures InOneRegion(rs, c) {
      SeamHalf(rs, c);
    }
  }

  lemma SeamParent(rs: seq<Region>, p: Chunk)
    requires rs == [Region(0, 1), Region(1, 2)] && Inside(p, UsableFrames(rs))
    ensures Pow2(p.order) <= 2
  {
    hide UsableFrames, Pow2;
    NonEmptyRun(p);
    assert Has(p, End(p) - 1);
    SeamFrames(rs, End(p) - 1);
  }

  lemma SeamHalf(rs: seq<Region>, c: Chunk)
    requires rs == [Region(0, 1), Region(1, 2)]
    requires Dyadic(c) && c.order < MAX_ORDER && Inside(Parent(c), UsableFrames(rs))
    ensures InOneRegion(rs, c)
  {
    hide Low, Parent, UsableFrames, InOneRegion, Pow2, Buddy;
    ParentAndBuddy(c);
    ParentOrder(c);
    OrderZero(c.order);
    SeamParent(rs, Parent(c));
    InsideWithin(c, Parent(c), UsableFrames(rs));
    SingleFrame(rs, c);
  }

  lemma SeamCrosses(rs: seq<Region>)
    requires rs == [Region(0, 1), Region(1, 2)]
    ensures !MergeFree(rs)
  {
    hide Low, UsableFrames, RegionFrames, Pow2;
    var d := Chunk(0, 1);
    SmallRuns();
    forall j: nat | Has(d, j) ensures j in UsableFrames(rs) { SeamFrames(rs, j); }
    forall i: nat | i < |rs| ensures !Inside(d, RegionFrames(rs[i])) { InsideRegion(d, rs[i]); }
    assert !InOneRegion(rs, d);
  }

  lemma OrderZero(order: nat)
    ensures Pow2(order + 1) <= 2 ==> order == 0
  {
    if order > 0 { Pow2Monotone(2, order + 1); }
  }

  /** A memory map with touching regions whose lists are not canonical, and on which the test never fails. */
  method SeamAllocator(memory: Memory) returns (a: BuddyAllocator)
    ensures fresh(a) && a.Valid() && a.seams != {} && R.AlwaysExact(a.Machine())
  {
    hide R.AlwaysExact, HalvesInRegions, MapOk, FrameRegions, Carved, UsableFrames, MergeFree, MapGapped, Content;
    SeamRegions();
    assert SeamMap()[0].usable;
    a := new BuddyAllocator.New(SeamMap(), 0, memory);
    TracksOnly(SeamMap(), a.basePhys, a.totalFrames, 0, 8192);
  }

  lemma HoleRegions()
    ensures Bounds(HoleMap(), 0, 12288) && MapOk(HoleMap()) && MapGapped(HoleMap())
    ensures UsableFrames(FrameRegions(HoleMap(), 0, 3)) == {0, 2}
  {
    hide UsableFrames;
    assert HoleMap()[0].usable && HoleMap()[2].usable;
    var rs := FrameRegions(HoleMap(), 0, 3);
    assert rs == [Region(0, 1), Region(0, 0), Region(2, 3)];
    HoleFrames(rs);
  }

  lemma HoleFrames(rs: seq<Region>)
    requires rs == [Region(0, 1), Region(0, 0), Region(2, 3)]
    ensures UsableFrames(rs) == {0, 2}
  {
    assert InRegion(rs[0], 0) && InRegion(rs[2], 2);
    forall j | j in UsableFrames(rs) ensures j in {0, 2} {
      var i: nat :| i < |rs| && InRegion(rs[i], j);
    }
  }

  /** A memory map on which `free_frames` reports three frames when two are free. */
  method HoleAllocator(memory: Memory) returns (a: BuddyAllocator, n: nat)
    ensures fresh(a) && a.Valid() && a.free == {0, 2} && n == 3
  {
    hide R.AlwaysExact, HalvesInRegions, MapOk, FrameRegions, Carved, UsableFrames, MergeFree, MapGapped, Content;
    HoleRegions();
    assert HoleMap()[0].usable;
    a := new BuddyAllocator.New(HoleMap(), 0, memory);
    TracksOnly(HoleMap(), a.basePhys, a.totalFrames, 0, 12288);
    n := a.FreeFrames();
    assert a.usable == {0, 2};
  }
}
