/** Carving usable regions into runs: the greedy loop of `BuddyAllocator::new`, and when its result is
    the canonical decomposition of all usable frames. */
module BuddyCarve {
  import opened Bits
  import opened BuddyBlocks
  import opened BuddySeams

  /** A usable region, as frame indices `[start, end)`. */
  datatype Region = Region(start: nat, end: nat)

  predicate InRegion(r: Region, j: nat) {
    r.start <= j < r.end
  }

  ghost function RegionFrames(r: Region): set<nat> {
    set j: nat | j < r.end && InRegion(r, j)
  }

  ghost function UsableFrames(regions: seq<Region>): set<nat> {
    set i: nat, j: nat | i < |regions| && j < regions[i].end && InRegion(regions[i], j) :: j
  }

  /** Regions of one memory map do not overlap. */
  ghost predicate Separate(regions: seq<Region>) {
    forall i: nat, k: nat, j: nat ::
      i < |regions| && k < |regions| && InRegion(regions[i], j) && InRegion(regions[k], j) ==> i == k
  }

  // ---------------------------------------------------------------- one region

  /** No managed run inside the region has `pos` in its interior. */
  ghost predicate NoStraddle(r: Region, pos: nat) {
    forall d: Chunk {:trigger Dyadic(d)} :: Dyadic(d) && Inside(d, RegionFrames(r)) ==> !(d.idx < pos < End(d))
  }

  /** The order the carving loop picks at `pos`: the largest that is aligned and fits. */
  ghost predicate PickedOrder(r: Region, pos: nat, order: nat) {
    && order <= MAX_ORDER && Low(pos, order) == 0 && pos + Pow2(order) <= r.end
    && forall k: nat :: order < k <= MAX_ORDER ==> Low(pos, k) != 0 || pos + Pow2(k) > r.end
  }

  lemma InsideRegion(c: Chunk, r: Region)
    ensures Inside(c, RegionFrames(r)) <==> r.start <= c.idx && End(c) <= r.end
  {
    if Inside(c, RegionFrames(r)) {
      assert Has(c, c.idx) && Has(c, End(c) - 1);
    }
  }

  /** The run picked at `pos` is a maximal run of the region, and the next position is as good. */
  lemma PickIsCanonical(r: Region, pos: nat, order: nat)
    requires r.start <= pos < r.end && NoStraddle(r, pos) && PickedOrder(r, pos, order)
    ensures Canonical(Chunk(pos, order), RegionFrames(r))
    ensures NoStraddle(r, pos + Pow2(order))
  {
    hide Low, Parent, RegionFrames;
    var c := Chunk(pos, order);
    InsideRegion(c, r);
    assert Dyadic(c);
    if order < MAX_ORDER { PickIsMaximal(r, pos, order); }
    forall d: Chunk | Dyadic(d) && Inside(d, RegionFrames(r)) ensures !(d.idx < End(c) < End(d)) {
      InsideRegion(d, r);
      if d.idx < End(c) < End(d) { PickNotStraddled(r, pos, order, d); }
    }
  }

  lemma PickIsMaximal(r: Region, pos: nat, order: nat)
    requires r.start <= pos < r.end && NoStraddle(r, pos) && PickedOrder(r, pos, order) && order < MAX_ORDER
    ensures !Inside(Parent(Chunk(pos, order)), RegionFrames(r))
  {
    hide Low, Parent, RegionFrames;
    var c := Chunk(pos, order);
    ParentAndBuddy(c);
    ParentOrder(c);
    var p := Parent(c);
    InsideRegion(p, r);
    assert p.idx == pos ==> Low(pos, order + 1) == 0;
    assert Dyadic(p);
  }

  lemma PickNotStraddled(r: Region, pos: nat, order: nat, d: Chunk)
    requires r.start <= pos < r.end && NoStraddle(r, pos) && PickedOrder(r, pos, order)
    requires Dyadic(d) && r.start <= d.idx && End(d) <= r.end && d.idx < pos + Pow2(order)
    ensures End(d) <= pos + Pow2(order)
  {
    hide Low, RegionFrames;
    var c := Chunk(pos, order);
    InsideRegion(d, r);
    assert d.idx < pos ==> End(d) <= pos;
    if d.idx >= pos {
      if d.order <= order {
        Nested(d, c);
      } else {
        Nested(c, d);
      }
    }
  }

  /** Up to the next position, the only maximal run starting at or after `pos` is the picked one. */
  lemma OnlyPicked(r: Region, pos: nat, order: nat, d: Chunk)
    requires r.start <= pos < r.end && NoStraddle(r, pos) && PickedOrder(r, pos, order)
    requires Canonical(d, RegionFrames(r)) && pos <= d.idx < pos + Pow2(order)
    ensures d == Chunk(pos, order)
  {
    hide Low, Parent, RegionFrames;
    PickIsCanonical(r, pos, order);
    CanonicalDisjoint(Chunk(pos, order), d, RegionFrames(r));
  }

  // ---------------------------------------------------------------- all regions

  /** A maximal run of some region. */
  ghost predicate Carved(regions: seq<Region>, c: Chunk) {
    exists i: nat :: i < |regions| && Canonical(c, RegionFrames(regions[i]))
  }

  /** Every managed run of usable frames lies inside one region. A memory map can be checked for this
      before the allocator is built; regions with gaps between them always pass. */
  ghost predicate MergeFree(regions: seq<Region>) {
    forall c: Chunk {:trigger Dyadic(c)} ::
      Dyadic(c) && Inside(c, UsableFrames(regions)) ==> InOneRegion(regions, c)
  }

  ghost predicate InOneRegion(regions: seq<Region>, c: Chunk) {
    exists i: nat :: i < |regions| && Inside(c, RegionFrames(regions[i]))
  }

  lemma RegionIsUsable(regions: seq<Region>, i: nat)
    requires i < |regions|
    ensures RegionFrames(regions[i]) <= UsableFrames(regions)
  {
  }

  lemma SameRegion(regions: seq<Region>, c: Chunk, i: nat, k: nat)
    requires Separate(regions) && i < |regions| && k < |regions|
    requires Inside(c, RegionFrames(regions[i])) && Inside(c, RegionFrames(regions[k]))
    ensures i == k
  {
    InsideRegion(c, regions[i]);
    InsideRegion(c, regions[k]);
    assert InRegion(regions[k], c.idx) && InRegion(regions[i], c.idx);
  }

  lemma CarvedIsCanonical(regions: seq<Region>, c: Chunk)
    requires Separate(regions) && MergeFree(regions) && Carved(regions, c)
    ensures Canonical(c, UsableFrames(regions))
  {
    hide Low, Parent, RegionFrames, UsableFrames;
    var i: nat :| i < |regions| && Canonical(c, RegionFrames(regions[i]));
    RegionIsUsable(regions, i);
    InsideSubset(c, RegionFrames(regions[i]), UsableFrames(regions));
    if c.order < MAX_ORDER && Inside(Parent(c), UsableFrames(regions)) {
      ParentAndBuddy(c);
      assert InOneRegion(regions, Parent(c));
      var k: nat :| k < |regions| && Inside(Parent(c), RegionFrames(regions[k]));
      InsideWithin(c, Parent(c), RegionFrames(regions[k]));
      SameRegion(regions, c, i, k);
    }
  }

  lemma CanonicalIsCarved(regions: seq<Region>, c: Chunk)
    requires MergeFree(regions) && Canonical(c, UsableFrames(regions))
    ensures Carved(regions, c)
  {
    hide Low, Parent, RegionFrames, UsableFrames;
    assert InOneRegion(regions, c);
    var i: nat :| i < |regions| && Inside(c, RegionFrames(regions[i]));
    RegionIsUsable(regions, i);
    if Inside(Parent(c), RegionFrames(regions[i])) {
      InsideSubset(Parent(c), RegionFrames(regions[i]), UsableFrames(regions));
    }
    assert Canonical(c, RegionFrames(regions[i]));
  }

  /** Carving region by region gives the canonical decomposition of all usable frames exactly when no
      managed run of usable frames crosses a region boundary. */
  lemma CarvingIsCanonicalIff(regions: seq<Region>)
    requires Separate(regions)
    ensures (forall c: Chunk :: Carved(regions, c) <==> Canonical(c, UsableFrames(regions))) <==> MergeFree(regions)
  {
    hide Low, Parent, RegionFrames, UsableFrames, Dyadic, Canonical, Carved;
    if MergeFree(regions) {
      forall c: Chunk ensures Carved(regions, c) <==> Canonical(c, UsableFrames(regions)) {
        if Carved(regions, c) { CarvedIsCanonical(regions, c); }
        if Canonical(c, UsableFrames(regions)) { CanonicalIsCarved(regions, c); }
      }
    }
    if forall c: Chunk :: Carved(regions, c) <==> Canonical(c, UsableFrames(regions)) {
      forall c: Chunk | Dyadic(c) && Inside(c, UsableFrames(regions)) ensures InOneRegion(regions, c) {
        var d := CanonicalCover(c, UsableFrames(regions));
        assert Carved(regions, d);
        WithinCarved(regions, c, d);
      }
    }
  }

  lemma WithinCarved(regions: seq<Region>, c: Chunk, d: Chunk)
    requires Carved(regions, d) && Within(c, d)
    ensures InOneRegion(regions, c)
  {
    hide Low, Parent, RegionFrames;
    var i: nat :| i < |regions| && Canonical(d, RegionFrames(regions[i]));
    InsideWithin(c, d, RegionFrames(regions[i]));
  }

  predicate Empty(r: Region) {
    r.start >= r.end
  }

  /** Regions with a gap between any two that are not empty. */
  ghost predicate Gapped(regions: seq<Region>) {
    forall i: nat, k: nat :: i < |regions| && k < |regions| && i != k && !Empty(regions[i]) && !Empty(regions[k]) ==>
      regions[i].end < regions[k].start || regions[k].end < regions[i].start
  }

  lemma {:induction false} RunStaysInRegion(regions: seq<Region>, c: Chunk, i: nat, j: nat)
    requires Gapped(regions) && Inside(c, UsableFrames(regions))
    requires i < |regions| && InRegion(regions[i], c.idx) && Has(c, j)
    ensures InRegion(regions[i], j)
  {
    if j > c.idx {
      RunStaysInRegion(regions, c, i, j - 1);
      assert j in UsableFrames(regions);
      var k: nat :| k < |regions| && InRegion(regions[k], j);
    }
  }

  /** Gaps suffice: a usable run cannot cross one. */
  lemma GappedIsMergeFree(regions: seq<Region>)
    requires Gapped(regions)
    ensures MergeFree(regions)
  {
    hide Low, Dyadic;
    forall c: Chunk | Dyadic(c) && Inside(c, UsableFrames(regions)) ensures InOneRegion(regions, c) {
      assert Has(c, c.idx);
      var i: nat :| i < |regions| && InRegion(regions[i], c.idx);
      forall j: nat | Has(c, j) ensures j in RegionFrames(regions[i]) {
        RunStaysInRegion(regions, c, i, j);
      }
    }
  }

  // ---------------------------------------------------------------- regions that touch

  /** Each half of every managed run of usable frames lies inside one region: regions may touch, but a
      run may cross a boundary only in its middle, and only if no larger usable run contains it. */
  ghost predicate HalvesInRegions(regions: seq<Region>) {
    forall c: Chunk {:trigger Dyadic(c)} ::
      Dyadic(c) && c.order < MAX_ORDER && Inside(Parent(c), UsableFrames(regions)) ==> InOneRegion(regions, c)
  }

  /** A maximal usable run that crosses a region boundary. */
  ghost predicate IsSeam(regions: seq<Region>, c: Chunk) {
    Canonical(c, UsableFrames(regions)) && !InOneRegion(regions, c)
  }

  ghost function Seams(regions: seq<Region>): set<Chunk> {
    set i: nat, k: nat | i in UsableFrames(regions) && k <= MAX_ORDER && IsSeam(regions, Chunk(i, k)) :: Chunk(i, k)
  }

  lemma SeamsAre(regions: seq<Region>, c: Chunk)
    ensures c in Seams(regions) <==> IsSeam(regions, c)
  {
    hide UsableFrames, Parent, InOneRegion;
    if IsSeam(regions, c) {
      NonEmpty(c);
      assert c == Chunk(c.idx, c.order);
    }
  }

  lemma MergeFreeHalves(regions: seq<Region>)
    requires MergeFree(regions)
    ensures HalvesInRegions(regions) && Seams(regions) == {}
  {
    hide UsableFrames, Parent, InOneRegion, Dyadic, Seams;
    forall c: Chunk | Dyadic(c) && c.order < MAX_ORDER && Inside(Parent(c), UsableFrames(regions))
      ensures InOneRegion(regions, c)
    {
      ParentAndBuddy(c);
      InsideWithin(c, Parent(c), UsableFrames(regions));
    }
    forall c ensures c !in Seams(regions) {
      SeamsAre(regions, c);
      if IsSeam(regions, c) { CanonicalIsDyadic(c, UsableFrames(regions)); }
    }
  }

  lemma CanonicalIsDyadic(c: Chunk, s: set<nat>)
    requires Canonical(c, s)
    ensures Dyadic(c) && Inside(c, s)
  {
  }

  /** A run of one usable frame lies in one region. */
  lemma SingleFrame(regions: seq<Region>, c: Chunk)
    requires Inside(c, UsableFrames(regions)) && c.order == 0
    ensures InOneRegion(regions, c)
  {
    NonEmpty(c);
    var i: nat :| i < |regions| && InRegion(regions[i], c.idx);
    assert End(c) == c.idx + 1;
    InsideRegion(c, regions[i]);
  }

  /** A half whose parent crosses a boundary is carved, if it lies in one region. */
  lemma HalfIsCarved(regions: seq<Region>, c: Chunk)
    requires Dyadic(c) && c.order < MAX_ORDER && InOneRegion(regions, c) && !InOneRegion(regions, Parent(c))
    ensures Carved(regions, c)
  {
    hide Low, Parent, RegionFrames;
    var i: nat :| i < |regions| && Inside(c, RegionFrames(regions[i]));
    assert Canonical(c, RegionFrames(regions[i]));
  }

  lemma CarvedIsListed(regions: seq<Region>, c: Chunk)
    requires Separate(regions) && HalvesInRegions(regions) && Carved(regions, c)
    ensures Listed(c, UsableFrames(regions), Seams(regions))
  {
    hide Low, Parent, RegionFrames, UsableFrames, Seams, Separate;
    var u := UsableFrames(regions);
    var i: nat :| i < |regions| && Canonical(c, RegionFrames(regions[i]));
    RegionIsUsable(regions, i);
    InsideSubset(c, RegionFrames(regions[i]), u);
    SeamsAre(regions, c);
    assert InOneRegion(regions, c);
    if c.order < MAX_ORDER && Inside(Parent(c), u) {
      CarvedParent(regions, c, i);
      ParentAndBuddy(c);
      SeamsAre(regions, Parent(c));
    }
  }

  /** The parent of a carved run does not lie in one region. */
  lemma CarvedParent(regions: seq<Region>, c: Chunk, i: nat)
    requires Separate(regions) && i < |regions| && Canonical(c, RegionFrames(regions[i])) && c.order < MAX_ORDER
    ensures !InOneRegion(regions, Parent(c))
  {
    hide Low, Parent, RegionFrames, Separate;
    if k: nat :| k < |regions| && Inside(Parent(c), RegionFrames(regions[k])) {
      ParentAndBuddy(c);
      InsideWithin(c, Parent(c), RegionFrames(regions[k]));
      SameRegion(regions, c, i, k);
    }
  }

  lemma ListedIsCarved(regions: seq<Region>, c: Chunk)
    requires HalvesInRegions(regions) && Listed(c, UsableFrames(regions), Seams(regions))
    ensures Carved(regions, c)
  {
    hide Low, Parent, RegionFrames, UsableFrames, Seams;
    SeamsAre(regions, c);
    if c.order < MAX_ORDER && Parent(c) in Seams(regions) {
      SeamsAre(regions, Parent(c));
      HalfIsCarved(regions, c);
    } else {
      var i: nat :| i < |regions| && Inside(c, RegionFrames(regions[i]));
      RegionIsUsable(regions, i);
      if Inside(Parent(c), RegionFrames(regions[i])) {
        InsideSubset(Parent(c), RegionFrames(regions[i]), UsableFrames(regions));
      }
      assert Canonical(c, RegionFrames(regions[i]));
    }
  }

  /** The lists of a new allocator are right, up to its seams, when halves lie in regions. */
  lemma CarvingIsListed(regions: seq<Region>, c: Chunk)
    requires Separate(regions) && HalvesInRegions(regions)
    ensures Carved(regions, c) <==> Listed(c, UsableFrames(regions), Seams(regions))
  {
    hide *;
    if Carved(regions, c) { CarvedIsListed(regions, c); }
    if Listed(c, UsableFrames(regions), Seams(regions)) { ListedIsCarved(regions, c); }
  }

  lemma SeamsAreSeamed(regions: seq<Region>)
    ensures Seamed(Seams(regions), UsableFrames(regions))
  {
    hide UsableFrames, Seams, Canonical, InOneRegion;
    forall d | d in Seams(regions) ensures d.order > 0 && Canonical(d, UsableFrames(regions)) {
      SeamsAre(regions, d);
      CanonicalIsDyadic(d, UsableFrames(regions));
      if d.order == 0 { SingleFrame(regions, d); }
    }
  }

  // ---------------------------------------------------------------- progress of the carving loop

  /** The runs listed once the first `n` regions are carved, and region `n` up to `pos`. */
  ghost predicate CarvedBefore(regions: seq<Region>, n: nat, pos: nat, c: Chunk)
    requires n <= |regions|
  {
    || (exists i: nat :: i < n && Canonical(c, RegionFrames(regions[i])))
    || (n < |regions| && Canonical(c, RegionFrames(regions[n])) && c.idx < pos)
  }

  ghost predicate ListsCarved(lists: seq<seq<nat>>, regions: seq<Region>, n: nat, pos: nat)
    requires n <= |regions|
  {
    && |lists| == MAX_ORDER + 1
    && forall k: nat, i: nat {:trigger i in lists[k]} ::
         k <= MAX_ORDER ==> (i in lists[k] <==> CarvedBefore(regions, n, pos, Chunk(i, k)))
  }

  lemma NothingCarved(lists: seq<seq<nat>>, regions: seq<Region>)
    requires |lists| == MAX_ORDER + 1 && forall k: nat :: k <= MAX_ORDER ==> lists[k] == []
    ensures |regions| > 0 ==> ListsCarved(lists, regions, 0, regions[0].start)
    ensures |regions| == 0 ==> ListsCarved(lists, regions, 0, 0)
  {
    hide Dyadic, Parent;
    if |regions| > 0 {
      forall k: nat, i: nat | k <= MAX_ORDER ensures !CarvedBefore(regions, 0, regions[0].start, Chunk(i, k)) {
        InsideRegion(Chunk(i, k), regions[0]);
      }
    }
  }

  /** At the start of a region nothing of it is carved yet, so any earlier position will do. */
  lemma RegionStart(regions: seq<Region>, n: nat, pos: nat, c: Chunk)
    requires n < |regions| && pos <= regions[n].start
    ensures CarvedBefore(regions, n, pos, c) <==> CarvedBefore(regions, n, regions[n].start, c)
  {
    hide Dyadic, Parent, RegionFrames;
    InsideRegion(c, regions[n]);
  }

  /** At the end of a region all of it is carved. */
  lemma RegionDone(regions: seq<Region>, n: nat, pos: nat, c: Chunk)
    requires n < |regions| && pos >= regions[n].end
    ensures CarvedBefore(regions, n, pos, c) <==> CarvedBefore(regions, n + 1, 0, c)
  {
    hide Dyadic, Parent, RegionFrames;
    InsideRegion(c, regions[n]);
    NonEmptyRun(c);
    if n + 1 < |regions| { InsideRegion(c, regions[n + 1]); }
  }

  lemma NonEmptyRun(c: Chunk)
    ensures c.idx < End(c)
  {
  }

  /** The frame about to be carved starts no listed run. */
  lemma CarveFresh(lists: seq<seq<nat>>, regions: seq<Region>, n: nat, pos: nat, k: nat)
    requires Separate(regions) && n < |regions| && InRegion(regions[n], pos) && k <= MAX_ORDER
    requires ListsCarved(lists, regions, n, pos)
    ensures pos !in lists[k]
  {
    hide Dyadic, Parent, RegionFrames;
    if pos in lists[k] {
      var c := Chunk(pos, k);
      var i: nat :| i < n && Canonical(c, RegionFrames(regions[i]));
      InsideRegion(c, regions[i]);
      NonEmptyRun(c);
      StartsInside(regions, i, n, pos);
    }
  }

  lemma StartsInside(regions: seq<Region>, i: nat, k: nat, j: nat)
    requires Separate(regions) && i < |regions| && k < |regions| && InRegion(regions[i], j) && InRegion(regions[k], j)
    ensures i == k
  {
  }

  lemma CarveStep(regions: seq<Region>, n: nat, pos: nat, order: nat, d: Chunk)
    requires n < |regions|
    requires var r := regions[n]; r.start <= pos < r.end && NoStraddle(r, pos) && PickedOrder(r, pos, order)
    ensures CarvedBefore(regions, n, pos + Pow2(order), d) <==>
            CarvedBefore(regions, n, pos, d) || d == Chunk(pos, order)
  {
    hide Low, Parent, RegionFrames;
    var r := regions[n];
    PickIsCanonical(r, pos, order);
    if Canonical(d, RegionFrames(r)) && pos <= d.idx < pos + Pow2(order) {
      OnlyPicked(r, pos, order, d);
    }
  }

  /** Listing the picked run advances the carving. */
  lemma CarveAdvance(lists: seq<seq<nat>>, regions: seq<Region>, n: nat, pos: nat, order: nat)
    requires n < |regions| && ListsCarved(lists, regions, n, pos)
    requires var r := regions[n]; r.start <= pos < r.end && NoStraddle(r, pos) && PickedOrder(r, pos, order)
    ensures ListsCarved(lists[order := [pos] + lists[order]], regions, n, pos + Pow2(order))
    ensures NoStraddle(regions[n], pos + Pow2(order))
  {
    hide Low, Parent, RegionFrames, CarvedBefore, NoStraddle;
    PickIsCanonical(regions[n], pos, order);
    var lists' := lists[order := [pos] + lists[order]];
    forall k: nat, i: nat | k <= MAX_ORDER
      ensures i in lists'[k] <==> CarvedBefore(regions, n, pos + Pow2(order), Chunk(i, k))
    {
      CarveStep(regions, n, pos, order, Chunk(i, k));
    }
  }

  lemma AllCarved(lists: seq<seq<nat>>, regions: seq<Region>)
    requires ListsCarved(lists, regions, |regions|, 0)
    ensures forall k: nat, i: nat :: k <= MAX_ORDER ==> (i in lists[k] <==> Carved(regions, Chunk(i, k)))
  {
  }

  lemma StartNoStraddle(r: Region)
    ensures NoStraddle(r, r.start)
  {
    hide Low, Dyadic, RegionFrames;
    forall d: Chunk | Dyadic(d) && Inside(d, RegionFrames(r)) ensures !(d.idx < r.start < End(d)) {
      InsideRegion(d, r);
    }
  }
}
