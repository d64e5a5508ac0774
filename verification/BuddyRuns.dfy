/** The buddy allocator as a machine on its free lists and bitmap: what each call does to the lists,
    in order, and whether every buddy that passes the bitmap test of deallocation is in the list it is
    then removed from, over all runs. */
module BuddyRuns {
  import opened Bits
  import opened FreeLists
  import opened BuddyBlocks
  import opened BuddySeams
  import opened BuddyPool
  import opened BuddyCarve

  datatype State = State(lists: seq<seq<nat>>, free: set<nat>, live: set<Chunk>)

  // ---------------------------------------------------------------- the calls

  /** The first non-empty list from `order` upward. */
  function FirstList(lists: seq<seq<nat>>, order: nat): (k: nat)
    requires |lists| == MAX_ORDER + 1 && order <= MAX_ORDER + 1
    ensures order <= k <= MAX_ORDER + 1
    ensures k <= MAX_ORDER ==> lists[k] != []
    ensures forall m: nat :: order <= m < k ==> lists[m] == []
    decreases MAX_ORDER + 1 - order
  {
    if order > MAX_ORDER || lists[order] != [] then order else FirstList(lists, order + 1)
  }

  /** The lists after the run at `idx` is split from order `from` down to `order`. */
  function SplitLists(lists: seq<seq<nat>>, idx: nat, from: nat, order: nat): (r: seq<seq<nat>>)
    requires |lists| == MAX_ORDER + 1 && order <= from <= MAX_ORDER
    ensures |r| == |lists|
    decreases from
  {
    if from == order then lists
    else SplitLists(lists[from - 1 := [idx + Pow2(from - 1)] + lists[from - 1]], idx, from - 1, order)
  }

  predicate CanAllocate(s: State, order: nat) {
    |s.lists| == MAX_ORDER + 1 && order <= MAX_ORDER && FirstList(s.lists, order) <= MAX_ORDER
  }

  /** The run an allocation hands out: the start of the first run of the first non-empty list. */
  function Chosen(s: State, order: nat): Chunk
    requires CanAllocate(s, order)
  {
    Chunk(s.lists[FirstList(s.lists, order)][0], order)
  }

  function PoppedLists(lists: seq<seq<nat>>, k: nat): seq<seq<nat>>
    requires |lists| == MAX_ORDER + 1 && k <= MAX_ORDER && lists[k] != []
  {
    lists[k := lists[k][1..]]
  }

  ghost function Allocate(s: State, order: nat): State
    requires CanAllocate(s, order)
  {
    var k := FirstList(s.lists, order);
    var c := Chosen(s, order);
    State(SplitLists(PoppedLists(s.lists, k), c.idx, k, order), s.free - Frames(c), s.live + {c})
  }

  function DropBuddy(lists: seq<seq<nat>>, c: Chunk): seq<seq<nat>>
    requires |lists| == MAX_ORDER + 1 && c.order <= MAX_ORDER
  {
    lists[c.order := Drop(lists[c.order], Buddy(c).idx)]
  }

  /** Every buddy that passes the bitmap test while `c` is returned is in the list of its order. */
  ghost predicate TestsListed(lists: seq<seq<nat>>, free: set<nat>, c: Chunk)
    requires |lists| == MAX_ORDER + 1
    decreases MAX_ORDER - c.order
  {
    c.order < MAX_ORDER && Inside(Buddy(c), free) ==>
      && Buddy(c).idx in lists[c.order]
      && TestsListed(DropBuddy(lists, c), free - Frames(Buddy(c)), Parent(c))
  }

  /** The lists and the run after coalescing `c` upward while its buddy is free. */
  ghost function Coalesced(lists: seq<seq<nat>>, free: set<nat>, c: Chunk): (r: (seq<seq<nat>>, Chunk))
    requires |lists| == MAX_ORDER + 1 && c.order <= MAX_ORDER
    ensures |r.0| == |lists| && r.1.order <= MAX_ORDER
    decreases MAX_ORDER - c.order
  {
    if c.order < MAX_ORDER && Inside(Buddy(c), free) then
      Coalesced(DropBuddy(lists, c), free - Frames(Buddy(c)), Parent(c))
    else
      (lists, c)
  }

  predicate CanDeallocate(s: State, c: Chunk) {
    |s.lists| == MAX_ORDER + 1 && c in s.live && c.order <= MAX_ORDER
  }

  ghost function Deallocate(s: State, c: Chunk): State
    requires CanDeallocate(s, c)
  {
    var (lists, d) := Coalesced(s.lists, s.free, c);
    State(lists[d.order := [d.idx] + lists[d.order]], s.free + Frames(c), s.live - {c})
  }

  // ---------------------------------------------------------------- runs

  /** A call; a deallocation whose tests are not all listed has no defined outcome and ends the run. */
  ghost predicate Step(s: State, s': State) {
    || (exists order: nat :: CanAllocate(s, order) && s' == Allocate(s, order))
    || (exists c :: CanDeallocate(s, c) && TestsListed(s.lists, s.free, c) && s' == Deallocate(s, c))
  }

  ghost predicate IsRunFrom(start: State, run: seq<State>) {
    && |run| > 0 && run[0] == start
    && forall i: nat :: i + 1 < |run| ==> Step(run[i], run[i + 1])
  }

  ghost predicate TestsExact(s: State) {
    |s.lists| == MAX_ORDER + 1 && forall c :: c in s.live ==> TestsListed(s.lists, s.free, c)
  }

  /** On all runs from `start`, every buddy that passes the test is listed. */
  ghost predicate AlwaysExact(start: State) {
    forall run: seq<State> :: IsRunFrom(start, run) ==> TestsExact(run[|run| - 1])
  }

  // ---------------------------------------------------------------- the invariant

  ghost predicate ListsDistinct(lists: seq<seq<nat>>) {
    forall k: nat :: k < |lists| ==> Distinct(lists[k])
  }

  ghost predicate Ok(s: State, usable: set<nat>, seams: set<Chunk>) {
    && Content(s.lists, s.free, seams) && Sealed(seams, usable) && ListsDistinct(s.lists)
    && PoolOk(Pool(usable, s.free, s.live))
  }

  /** Splitting once: the upper half is a new run for its list. */
  lemma SplitStep(lists: seq<seq<nat>>, f: set<nat>, seams: set<Chunk>, free0: set<nat>, idx: nat, m: nat)
    requires m < MAX_ORDER && Dyadic(Chunk(idx, m + 1)) && Inside(Chunk(idx, m + 1), free0)
    requires Content(lists, f, seams) && f == free0 - Frames(Chunk(idx, m + 1))
    ensures var c := Chunk(idx + Pow2(m), m);
            && Dyadic(c) && Inside(c, free0) && (forall k: nat :: k <= MAX_ORDER ==> c.idx !in lists[k])
            && Content(lists[m := [c.idx] + lists[m]], f + Frames(c), seams)
            && f + Frames(c) == free0 - Frames(Chunk(idx, m))
            && Dyadic(Chunk(idx, m)) && Inside(Chunk(idx, m), free0)
  {
    hide Low, Content, Buddy, Pow2;
    var c, h := Chunk(idx + Pow2(m), m), Chunk(idx, m);
    Halves(idx, m);
    FramesHas(c);
    FramesHas(h);
    FramesHas(Chunk(idx, m + 1));
    NonEmpty(h);
    assert !Inside(h, f);
    ContentShape(lists, f, seams);
    PushContent(lists, f, seams, c);
    forall k: nat | k <= MAX_ORDER ensures c.idx !in lists[k] { NotListed(lists, f, seams, c, k); }
    forall j: nat | Has(h, j) || Has(c, j) ensures j in free0 { assert j in Frames(Chunk(idx, m + 1)); }
  }

  lemma ContentShape(lists: seq<seq<nat>>, f: set<nat>, seams: set<Chunk>)
    requires Content(lists, f, seams)
    ensures |lists| == MAX_ORDER + 1
  {
  }

  lemma PushDistinct(lists: seq<seq<nat>>, k: nat, x: nat)
    requires ListsDistinct(lists) && k < |lists| && x !in lists[k]
    ensures ListsDistinct(lists[k := [x] + lists[k]])
  {
    var list := [x] + lists[k];
    forall i: nat, j: nat | i < j < |list| ensures list[i] != list[j] {
      if i > 0 { assert list[i] == lists[k][i - 1] && list[j] == lists[k][j - 1]; }
    }
  }

  lemma {:induction false} SplitOk(lists: seq<seq<nat>>, f: set<nat>, seams: set<Chunk>, free0: set<nat>,
                                   idx: nat, from: nat, order: nat)
    requires order <= from <= MAX_ORDER && Dyadic(Chunk(idx, from)) && Inside(Chunk(idx, from), free0)
    requires Content(lists, f, seams) && ListsDistinct(lists) && f == free0 - Frames(Chunk(idx, from))
    ensures |lists| == MAX_ORDER + 1
    ensures Content(SplitLists(lists, idx, from, order), free0 - Frames(Chunk(idx, order)), seams)
    ensures ListsDistinct(SplitLists(lists, idx, from, order))
    ensures Dyadic(Chunk(idx, order)) && Inside(Chunk(idx, order), free0)
    decreases from
  {
    hide Low, Content, Pow2, Frames, ListsDistinct, Inside, Dyadic;
    ContentShape(lists, f, seams);
    if from > order {
      var m := from - 1;
      var c := Chunk(idx + Pow2(m), m);
      SplitStep(lists, f, seams, free0, idx, m);
      PushDistinct(lists, m, c.idx);
      SplitOk(lists[m := [c.idx] + lists[m]], f + Frames(c), seams, free0, idx, m, order);
    }
  }

  /** Popping the head of a list. */
  lemma PopHead(lists: seq<seq<nat>>, f: set<nat>, seams: set<Chunk>, k: nat)
    requires Content(lists, f, seams) && ListsDistinct(lists) && k <= MAX_ORDER && lists[k] != []
    ensures var c := Chunk(lists[k][0], k);
            && Dyadic(c) && Inside(c, f)
            && Content(PoppedLists(lists, k), f - Frames(c), seams - {Parent(c)})
    ensures ListsDistinct(PoppedLists(lists, k))
  {
    hide Parent, Frames, Low;
    var list, list' := lists[k], lists[k][1..];
    var c := Chunk(list[0], k);
    assert list[0] in list;
    ListedIsFree(lists, f, seams, k, list[0]);
    forall x ensures x in list' <==> x in list && x != list[0] {
      if x in list && x != list[0] {
        var i: nat :| i < |list| && list[i] == x;
        assert list'[i - 1] == x;
      }
      if x in list' {
        var i: nat :| i < |list'| && list'[i] == x;
        assert list[i + 1] == x;
      }
    }
    PopContent(lists, PoppedLists(lists, k), f, seams, c);
    forall i: nat, j: nat | i < j < |list'| ensures list'[i] != list'[j] {
      assert list'[i] == list[i + 1] && list'[j] == list[j + 1];
    }
  }

  lemma AllocateOk(s: State, usable: set<nat>, seams: set<Chunk>, order: nat) returns (seams': set<Chunk>)
    requires Ok(s, usable, seams) && CanAllocate(s, order)
    ensures Ok(Allocate(s, order), usable, seams')
    ensures CanTake(Pool(usable, s.free, s.live), Chosen(s, order))
  {
    hide Content, Pow2, Frames, ListsDistinct, Inside, Dyadic, PoolOk, Parent, Canonical, SplitLists, PoppedLists;
    var k := FirstList(s.lists, order);
    var d := Chunk(s.lists[k][0], k);
    PopHead(s.lists, s.free, seams, k);
    seams' := seams - {Parent(d)};
    SplitOk(PoppedLists(s.lists, k), s.free - Frames(d), seams', s.free, d.idx, k, order);
    TakeOk(Pool(usable, s.free, s.live), Chosen(s, order));
  }

  // ---------------------------------------------------------------- coalescing

  /** The run being returned has grown to `c`: it covers `c0`, and the rest of it was free before. */
  ghost predicate Grown(c0: Chunk, c: Chunk, free0: set<nat>, f: set<nat>) {
    && Dyadic(c) && Frames(c0) <= Frames(c) <= free0 + Frames(c0)
    && f == free0 - Frames(c)
  }

  /** One coalescing step: the buddy leaves its list and joins the run. */
  lemma MergeStep(lists: seq<seq<nat>>, lists': seq<seq<nat>>, f: set<nat>, seams: set<Chunk>, free0: set<nat>, c0: Chunk, c: Chunk)
    requires Content(lists, f, seams) && Grown(c0, c, free0, f) && c.order < MAX_ORDER && |lists'| == |lists|
    requires Buddy(c).idx in lists[c.order]
    requires forall m: nat :: m <= MAX_ORDER && m != c.order ==> lists'[m] == lists[m]
    requires forall x :: x in lists'[c.order] <==> x in lists[c.order] && x != Buddy(c).idx
    ensures Content(lists', f - Frames(Buddy(c)), seams - {Parent(c)})
    ensures Grown(c0, Parent(c), free0, f - Frames(Buddy(c)))
  {
    hide Low, Xor, Content, Frames, Buddy, Parent;
    ParentAndBuddy(c);
    BuddyOrder(c);
    var b := Buddy(c);
    assert Chunk(b.idx, c.order) == b;
    ContentShape(lists, f, seams);
    ListedIsFree(lists, f, seams, c.order, b.idx);
    PopContent(lists, lists', f, seams, b);
    BuddyHalves(c);
    FramesHas(b);
    forall j | j in Frames(b) ensures j in f { }
  }

  lemma DropMembers(lists: seq<seq<nat>>, k: nat, x: nat)
    requires ListsDistinct(lists) && k < |lists| && x in lists[k]
    ensures forall y :: y in Drop(lists[k], x) <==> y in lists[k] && y != x
    ensures ListsDistinct(lists[k := Drop(lists[k], x)])
  {
    hide Drop, Without;
    assert Distinct(lists[k]);
    var i: nat :| i < |lists[k]| && lists[k][i] == x;
    DropIsWithout(lists[k], i);
    WithoutMembers(lists[k], i);
  }

  lemma GrownTest(lists: seq<seq<nat>>, f: set<nat>, seams: set<Chunk>, usable: set<nat>, free0: set<nat>, c0: Chunk, c: Chunk)
    requires Content(lists, f, seams) && Sealed(seams, usable) && Grown(c0, c, free0, f) && c.order < MAX_ORDER
    requires free0 + Frames(c0) <= usable
    ensures Inside(Buddy(c), f) <==> Buddy(c).idx in lists[c.order]
  {
    hide Content, Sealed, Frames, Dyadic, Buddy;
    BuddyListed(lists, f, seams, usable, c);
  }

  /** Under the invariant every test is listed, and coalescing ends at a run whose buddy is not free. */
  lemma {:induction false} CoalescedOk(lists: seq<seq<nat>>, f: set<nat>, seams: set<Chunk>, usable: set<nat>,
                                       free0: set<nat>, c0: Chunk, c: Chunk) returns (seams': set<Chunk>)
    requires Content(lists, f, seams) && Sealed(seams, usable) && ListsDistinct(lists) && Grown(c0, c, free0, f)
    requires free0 + Frames(c0) <= usable
    ensures |lists| == MAX_ORDER + 1 && c.order <= MAX_ORDER && TestsListed(lists, f, c)
    ensures var (ls, d) := Coalesced(lists, f, c);
            && Grown(c0, d, free0, free0 - Frames(d)) && Content(ls, free0 - Frames(d), seams')
            && Sealed(seams', usable) && ListsDistinct(ls)
            && (d.order < MAX_ORDER ==> !Inside(Buddy(d), free0 - Frames(d)))
    decreases MAX_ORDER - c.order
  {
    hide Content, Frames, Dyadic, Buddy, Parent, Inside, ListsDistinct, Drop;
    ContentShape(lists, f, seams);
    DyadicOrder(c);
    if c.order < MAX_ORDER && Inside(Buddy(c), f) {
      GrownTest(lists, f, seams, usable, free0, c0, c);
      DropMembers(lists, c.order, Buddy(c).idx);
      MergeStep(lists, DropBuddy(lists, c), f, seams, free0, c0, c);
      ParentOrder(c);
      seams' := CoalescedOk(DropBuddy(lists, c), f - Frames(Buddy(c)), seams - {Parent(c)}, usable, free0, c0, Parent(c));
    } else {
      seams' := seams;
    }
  }

  lemma ReturnStep(lists: seq<seq<nat>>, seams: set<Chunk>, free0: set<nat>, c0: Chunk, d: Chunk)
    requires var f := free0 - Frames(d);
             && Content(lists, f, seams) && ListsDistinct(lists) && Grown(c0, d, free0, f)
             && (d.order < MAX_ORDER ==> !Inside(Buddy(d), f))
    ensures |lists| == MAX_ORDER + 1 && d.order <= MAX_ORDER
    ensures var lists' := lists[d.order := [d.idx] + lists[d.order]];
            Content(lists', free0 + Frames(c0), seams) && ListsDistinct(lists')
  {
    hide Content, Frames, Buddy, Inside, ListsDistinct, Low;
    var f := free0 - Frames(d);
    ContentShape(lists, f, seams);
    PushContent(lists, f, seams, d);
    NotListed(lists, f, seams, d, d.order);
    PushDistinct(lists, d.order, d.idx);
    assert f + Frames(d) == free0 + Frames(c0);
  }

  lemma LiveIsGrown(p: Pool, c: Chunk)
    requires PoolOk(p) && c in p.live
    ensures Grown(c, c, p.free, p.free) && p.free + Frames(c) <= p.usable && c.order <= MAX_ORDER
  {
    hide Low;
    GiveOk(p, c);
  }

  lemma DeallocateOk(s: State, usable: set<nat>, seams: set<Chunk>, c: Chunk) returns (seams': set<Chunk>)
    requires Ok(s, usable, seams) && c in s.live
    ensures CanDeallocate(s, c) && TestsListed(s.lists, s.free, c)
    ensures Ok(Deallocate(s, c), usable, seams')
  {
    hide Content, Frames, Buddy, Inside, ListsDistinct, PoolOk, Grown, Sealed;
    LiveIsGrown(Pool(usable, s.free, s.live), c);
    GiveOk(Pool(usable, s.free, s.live), c);
    seams' := CoalescedOk(s.lists, s.free, seams, usable, s.free, c, c);
    var (lists, d) := Coalesced(s.lists, s.free, c);
    ReturnStep(lists, seams', s.free, c, d);
  }

  /** Sufficiency, over all runs. */
  lemma {:induction false} RunOk(start: State, usable: set<nat>, seams: set<Chunk>, run: seq<State>, i: nat)
    returns (seams': set<Chunk>)
    requires Ok(start, usable, seams) && IsRunFrom(start, run) && i < |run|
    ensures Ok(run[i], usable, seams')
  {
    hide Ok, Allocate, Deallocate, CanAllocate, TestsListed;
    if i == 0 {
      seams' := seams;
    } else {
      var before := RunOk(start, usable, seams, run, i - 1);
      var s, s' := run[i - 1], run[i];
      assert Step(run[i - 1], run[i - 1 + 1]);
      if order: nat :| CanAllocate(s, order) && s' == Allocate(s, order) {
        seams' := AllocateOk(s, usable, before, order);
      } else {
        var c :| CanDeallocate(s, c) && TestsListed(s.lists, s.free, c) && s' == Deallocate(s, c);
        seams' := DeallocateOk(s, usable, before, c);
      }
    }
  }

  lemma OkIsExact(s: State, usable: set<nat>, seams: set<Chunk>)
    requires Ok(s, usable, seams)
    ensures TestsExact(s)
  {
    hide TestsListed, PoolOk, Sealed, ListsDistinct;
    ContentShape(s.lists, s.free, seams);
    forall c | c in s.live ensures TestsListed(s.lists, s.free, c) {
      var _ := DeallocateOk(s, usable, seams, c);
    }
  }

  lemma OkIsAlwaysExact(start: State, usable: set<nat>, seams: set<Chunk>)
    requires Ok(start, usable, seams)
    ensures AlwaysExact(start)
  {
    hide Ok, TestsExact, Step;
    forall run: seq<State> | IsRunFrom(start, run) ensures TestsExact(run[|run| - 1]) {
      var seams' := RunOk(start, usable, seams, run, |run| - 1);
      OkIsExact(run[|run| - 1], usable, seams');
    }
  }

  // ---------------------------------------------------------------- a new allocator

  /** The state `new` leaves: all usable frames free, and the lists hold the maximal runs of each region. */
  ghost predicate Fresh(s: State, regions: seq<Region>) {
    && |s.lists| == MAX_ORDER + 1 && ListsDistinct(s.lists)
    && s.free == UsableFrames(regions) && s.live == {}
    && forall k: nat, i: nat {:trigger i in s.lists[k]} ::
         k <= MAX_ORDER ==> (i in s.lists[k] <==> Carved(regions, Chunk(i, k)))
  }

  lemma FreshOk(s: State, regions: seq<Region>)
    requires Separate(regions) && HalvesInRegions(regions) && Fresh(s, regions)
    ensures Ok(s, UsableFrames(regions), Seams(regions))
  {
    hide UsableFrames, Seams, Carved, Listed, Separate, HalvesInRegions, Seamed, ListsDistinct;
    SeamsAreSeamed(regions);
    forall k: nat, i: nat | k <= MAX_ORDER
      ensures i in s.lists[k] <==> Listed(Chunk(i, k), s.free, Seams(regions))
    {
      CarvingIsListed(regions, Chunk(i, k));
    }
    SeamedIsSealed(Seams(regions), UsableFrames(regions));
  }

  lemma SeamedIsSealed(seams: set<Chunk>, usable: set<nat>)
    requires Seamed(seams, usable)
    ensures Sealed(seams, usable)
  {
  }

  // ---------------------------------------------------------------- necessity

  /** A usable run that crosses a region boundary although it is half of a usable run. */
  ghost predicate CrossingHalf(regions: seq<Region>, c: Chunk) {
    && Dyadic(c) && c.order < MAX_ORDER
    && Inside(Parent(c), UsableFrames(regions)) && !InOneRegion(regions, c)
  }

  ghost predicate Smallest(regions: seq<Region>, c: Chunk) {
    CrossingHalf(regions, c) && forall d :: CrossingHalf(regions, d) ==> c.order <= d.order
  }

  lemma {:induction false} SmallestCrossing(regions: seq<Region>, c: Chunk) returns (d: Chunk)
    requires CrossingHalf(regions, c)
    ensures Smallest(regions, d)
    decreases c.order
  {
    hide CrossingHalf;
    if e :| CrossingHalf(regions, e) && e.order < c.order {
      d := SmallestCrossing(regions, e);
    } else {
      d := c;
    }
  }

  /** Both halves of a smallest crossing run are carved, though the run itself is not. */
  lemma CrossingHalves(regions: seq<Region>, h: Chunk)
    requires Dyadic(h) && Inside(h, UsableFrames(regions)) && !InOneRegion(regions, h)
    requires forall d :: CrossingHalf(regions, d) ==> h.order <= d.order
    ensures h.order > 0 && !Carved(regions, h)
    ensures Carved(regions, LowerHalf(h)) && Carved(regions, Buddy(LowerHalf(h)))
  {
    hide Low, Buddy, UsableFrames, InOneRegion, Carved;
    if h.order == 0 { SingleFrame(regions, h); }
    var c := LowerHalf(h);
    LowerHalfOf(h);
    ParentAndBuddy(c);
    BuddyOrder(c);
    assert !CrossingHalf(regions, c) && !CrossingHalf(regions, Buddy(c));
    HalfIsCarved(regions, c);
    HalfIsCarved(regions, Buddy(c));
    if Carved(regions, h) { CarvedInOne(regions, h); }
  }

  lemma CarvedInOne(regions: seq<Region>, c: Chunk)
    requires Carved(regions, c)
    ensures InOneRegion(regions, c) && Dyadic(c)
  {
  }

  /** Two carved runs are the same or share no frame. */
  lemma CarvedDisjoint(regions: seq<Region>, c: Chunk, d: Chunk)
    requires Separate(regions) && Carved(regions, c) && Carved(regions, d) && Overlap(c, d)
    ensures c == d
  {
    hide Low, Parent, RegionFrames;
    var i: nat :| i < |regions| && Canonical(c, RegionFrames(regions[i]));
    var k: nat :| k < |regions| && Canonical(d, RegionFrames(regions[k]));
    var j := CommonFrame(c, d);
    InsideRegion(c, regions[i]);
    InsideRegion(d, regions[k]);
    StartsInside(regions, i, k, j);
    CanonicalDisjoint(c, d, RegionFrames(regions[i]));
  }

  /** The frames of the first `t` runs of a list. */
  ghost function FirstFrames(list: seq<nat>, m: nat, t: nat): set<nat>
    requires t <= |list|
  {
    if t == 0 then {} else FirstFrames(list, m, t - 1) + Frames(Chunk(list[t - 1], m))
  }

  lemma {:induction false} FirstFramesOf(list: seq<nat>, m: nat, t: nat, j: nat) returns (i: nat)
    requires t <= |list| && j in FirstFrames(list, m, t)
    ensures i < t && Has(Chunk(list[i], m), j)
  {
    if j in Frames(Chunk(list[t - 1], m)) {
      FramesHas(Chunk(list[t - 1], m));
      i := t - 1;
    } else {
      i := FirstFramesOf(list, m, t - 1, j);
    }
  }

  /** Allocating `t` times at order `m` pops the first `t` runs of that list, as long as it has them. */
  lemma {:induction false} Drain(start: State, m: nat, t: nat) returns (run: seq<State>)
    requires |start.lists| == MAX_ORDER + 1 && m <= MAX_ORDER && t <= |start.lists[m]|
    ensures IsRunFrom(start, run)
    ensures var s := run[|run| - 1];
            && s.lists == start.lists[m := start.lists[m][t..]]
            && s.free == start.free - FirstFrames(start.lists[m], m, t)
            && (t > 0 ==> Chunk(start.lists[m][t - 1], m) in s.live)
  {
    hide Frames;
    var list := start.lists[m];
    if t == 0 {
      run := [start];
      assert start.lists[m := list[0..]] == start.lists;
    } else {
      var shorter := Drain(start, m, t - 1);
      var s := shorter[|shorter| - 1];
      assert list[t - 1..][0] == list[t - 1];
      assert FirstList(s.lists, m) == m;
      var s' := Allocate(s, m);
      assert list[t - 1..][1..] == list[t..];
      assert s'.lists == start.lists[m := list[t..]];
      run := shorter + [s'];
      ExtendRun(start, shorter, s');
    }
  }

  lemma ExtendRun(start: State, run: seq<State>, s': State)
    requires IsRunFrom(start, run) && Step(run[|run| - 1], s')
    ensures IsRunFrom(start, run + [s'])
  {
    hide Step;
    var longer := run + [s'];
    forall i: nat | i + 1 < |longer| ensures Step(longer[i], longer[i + 1]) {
      if i + 1 < |run| { assert Step(run[i], run[i + 1]); }
    }
  }

  /** A run that shares no frame with the first `t` runs of the list stays free while they are taken. */
  lemma StaysFree(start: State, regions: seq<Region>, m: nat, t: nat, c: Chunk)
    requires Fresh(start, regions) && m <= MAX_ORDER && t <= |start.lists[m]| && Inside(c, start.free)
    requires forall i: nat :: i < t ==> !Overlap(Chunk(start.lists[m][i], m), c)
    ensures Inside(c, start.free - FirstFrames(start.lists[m], m, t))
  {
    hide Carved, FirstFrames;
    forall j: nat | Has(c, j) ensures j !in FirstFrames(start.lists[m], m, t) {
      if j in FirstFrames(start.lists[m], m, t) {
        var i := FirstFramesOf(start.lists[m], m, t, j);
        SharedFrame(Chunk(start.lists[m][i], m), c, j);
      }
    }
  }

  lemma Listing(start: State, regions: seq<Region>, c: Chunk)
    requires Fresh(start, regions) && Carved(regions, c)
    ensures c.order <= MAX_ORDER && c.idx in start.lists[c.order]
  {
    hide Carved;
    CarvedInOne(regions, c);
    assert c == Chunk(c.idx, c.order);
  }

  lemma NotListing(start: State, regions: seq<Region>, c: Chunk)
    requires Fresh(start, regions) && !Carved(regions, c) && c.order <= MAX_ORDER
    ensures c.idx !in start.lists[c.order]
  {
    hide Carved;
    assert c == Chunk(c.idx, c.order);
  }

  lemma EntryCarved(start: State, regions: seq<Region>, m: nat, i: nat)
    requires Fresh(start, regions) && m <= MAX_ORDER && i < |start.lists[m]|
    ensures Carved(regions, Chunk(start.lists[m][i], m))
  {
    hide Carved;
    assert start.lists[m][i] in start.lists[m];
  }

  /** A listed run whose buddy crosses a boundary: take it and return it. */
  lemma FailsBeside(start: State, regions: seq<Region>, g: Chunk)
    requires Separate(regions) && Fresh(start, regions) && Carved(regions, g) && g.order < MAX_ORDER
    requires Dyadic(Buddy(g)) && !Carved(regions, Buddy(g)) && Inside(Buddy(g), start.free)
    ensures !AlwaysExact(start)
  {
    hide Carved, Buddy, Separate, Fresh, Frames, FirstFrames, Step, Inside, Dyadic;
    var h, n := Buddy(g), g.order;
    BuddyOrder(g);
    FreshShape(start, regions);
    Listing(start, regions, g);
    NotListing(start, regions, h);
    var list := start.lists[n];
    var t: nat :| t < |list| && list[t] == g.idx;
    forall i: nat | i < t + 1 ensures !Overlap(Chunk(list[i], n), h) {
      EntryCarved(start, regions, n, i);
      CarvedInOne(regions, Chunk(list[i], n));
      if Overlap(Chunk(list[i], n), h) { SameOrderSame(Chunk(list[i], n), h); }
    }
    StaysFree(start, regions, n, t + 1, h);
    var run := Drain(start, n, t + 1);
    var s := run[|run| - 1];
    assert g == Chunk(list[t], n) && g in s.live;
    assert !TestsListed(s.lists, s.free, g);
    assert !TestsExact(s);
  }

  lemma FreshShape(start: State, regions: seq<Region>)
    requires Fresh(start, regions)
    ensures |start.lists| == MAX_ORDER + 1 && start.free == UsableFrames(regions)
  {
  }

  lemma {:induction false} FirstHit(list: seq<nat>, hits: set<nat>, k: nat) returns (t: nat)
    requires k < |list| && list[k] in hits
    ensures t < |list| && list[t] in hits && forall i: nat :: i < t ==> list[i] !in hits
    decreases k
  {
    if i: nat :| i < k && list[i] in hits {
      t := FirstHit(list, hits, i);
    } else {
      t := k;
    }
  }

  /** Two coalescing tests: the buddy of `x` is free, and then the buddy of their parent is free but in no list. */
  lemma SecondTestFails(s: State, x: Chunk)
    requires |s.lists| == MAX_ORDER + 1 && x.order + 1 < MAX_ORDER
    requires Inside(Buddy(x), s.free) && Inside(Buddy(Parent(x)), s.free - Frames(Buddy(x)))
    requires Buddy(Parent(x)).idx !in s.lists[x.order + 1]
    ensures !TestsListed(s.lists, s.free, x)
  {
    hide Buddy, Frames, Inside, Drop;
    ParentOrder(x);
    assert !TestsListed(DropBuddy(s.lists, x), s.free - Frames(Buddy(x)), Parent(x));
  }

  /** Neither `z` nor its buddy is among the first `t` runs, so their parent keeps all its frames free. */
  lemma PairStaysFree(start: State, regions: seq<Region>, m: nat, t: nat, z: Chunk)
    requires Separate(regions) && Fresh(start, regions) && m < MAX_ORDER && t <= |start.lists[m]|
    requires z.order == m && Carved(regions, z) && Carved(regions, Buddy(z)) && Inside(Parent(z), start.free)
    requires forall i: nat :: i < t ==> start.lists[m][i] != z.idx && start.lists[m][i] != Buddy(z).idx
    ensures Inside(Parent(z), start.free - FirstFrames(start.lists[m], m, t))
  {
    hide Carved, Buddy, Parent, Separate, FirstFrames, Fresh, Inside, Low;
    FreshShape(start, regions);
    CarvedInOne(regions, z);
    ParentAndBuddy(z);
    BuddyOrder(z);
    var list := start.lists[m];
    forall i: nat | i < t ensures !Overlap(Chunk(list[i], m), Parent(z)) {
      var e := Chunk(list[i], m);
      EntryCarved(start, regions, m, i);
      if Overlap(e, Parent(z)) {
        if Overlap(e, z) { CarvedDisjoint(regions, e, z); }
        if Overlap(e, Buddy(z)) { CarvedDisjoint(regions, e, Buddy(z)); }
        OverlapsHalf(e, z);
      }
    }
    StaysFree(start, regions, m, t, Parent(z));
  }

  lemma OverlapsHalf(e: Chunk, z: Chunk)
    requires Dyadic(z) && z.order < MAX_ORDER && Overlap(e, Parent(z))
    ensures Overlap(e, z) || Overlap(e, Buddy(z))
  {
    hide Parent, Buddy, Low;
    ParentAndBuddy(z);
    ParentOrder(z);
    BuddyOrder(z);
  }

  /** Two crossing buddies, each listed as its halves: take the half `x` listed first and return it. It
      merges with its own half, and then the other run passes the test but is in no list. */
  lemma FailsBetween(start: State, regions: seq<Region>, x: Chunk, z: Chunk, t: nat)
    requires Separate(regions) && Fresh(start, regions) && x.order == z.order && x.order + 1 < MAX_ORDER
    requires Carved(regions, x) && Carved(regions, Buddy(x)) && Carved(regions, z) && Carved(regions, Buddy(z))
    requires Buddy(Parent(x)) == Parent(z) && !Carved(regions, Parent(z)) && Inside(Parent(z), start.free)
    requires t < |start.lists[x.order]| && start.lists[x.order][t] == x.idx
    requires forall i: nat :: i < t ==> start.lists[x.order][i] !in {x.idx, Buddy(x).idx, z.idx, Buddy(z).idx}
    requires x.idx !in {Buddy(x).idx, z.idx, Buddy(z).idx} && Inside(Buddy(x), start.free)
    requires !Overlap(Buddy(x), Parent(z))
    ensures !AlwaysExact(start)
  {
    hide Carved, Buddy, Parent, Separate, Fresh, Frames, FirstFrames, Step, Inside, Dyadic;
    FreshShape(start, regions);
    var m, list := x.order, start.lists[x.order];
    BuddyOrder(x);
    ParentOrder(z);
    var b := Buddy(x);
    forall i: nat | i < t + 1 ensures !Overlap(Chunk(list[i], m), b) {
      EntryCarved(start, regions, m, i);
      if Overlap(Chunk(list[i], m), b) { CarvedDisjoint(regions, Chunk(list[i], m), b); }
    }
    StaysFree(start, regions, m, t + 1, b);
    PairStaysFree(start, regions, m, t + 1, z);
    NotListing(start, regions, Parent(z));
    var run := Drain(start, m, t + 1);
    var s := run[|run| - 1];
    assert x == Chunk(list[t], m) && x in s.live;
    InsideMinus(b, Parent(z), s.free);
    SecondTestFails(s, x);
    assert !TestsExact(s);
  }

  /** The four halves of two buddies are four different runs. */
  lemma FourHalves(x: Chunk, z: Chunk)
    requires Dyadic(x) && Dyadic(z) && x.order == z.order && x.order + 1 < MAX_ORDER && Buddy(Parent(x)) == Parent(z)
    ensures x.idx !in {Buddy(x).idx, z.idx, Buddy(z).idx} && !Overlap(Buddy(x), Parent(z))
    ensures Within(Buddy(x), Parent(x))
  {
    hide Parent, Buddy, Low;
    ParentAndBuddy(x);
    ParentAndBuddy(z);
    ParentOrder(x);
    ParentOrder(z);
    BuddyOrder(x);
    BuddyOrder(z);
    ParentAndBuddy(Parent(x));
  }

  /** A crossing run listed as two halves. */
  ghost predicate SplitPair(start: State, regions: seq<Region>, z: Chunk) {
    && Dyadic(z) && z.order + 1 < MAX_ORDER && Carved(regions, z) && Carved(regions, Buddy(z))
    && !Carved(regions, Parent(z)) && Inside(Parent(z), start.free)
  }

  ghost function Four(x: Chunk, z: Chunk): set<nat> {
    {x.idx, Buddy(x).idx, z.idx, Buddy(z).idx}
  }

  lemma FailsFrom(start: State, regions: seq<Region>, x: Chunk, z: Chunk, t: nat)
    requires Separate(regions) && Fresh(start, regions) && SplitPair(start, regions, x) && SplitPair(start, regions, z)
    requires x.order == z.order && Buddy(Parent(x)) == Parent(z)
    requires t < |start.lists[x.order]| && start.lists[x.order][t] == x.idx
    requires forall i: nat :: i < t ==> start.lists[x.order][i] !in Four(x, z)
    ensures !AlwaysExact(start)
  {
    hide Carved, Parent, Buddy, Separate, Fresh, Inside, Dyadic;
    FourHalves(x, z);
    InsideWithin(Buddy(x), Parent(x), start.free);
    FailsBetween(start, regions, x, z, t);
  }

  lemma OtherHalf(start: State, regions: seq<Region>, z: Chunk)
    requires SplitPair(start, regions, z)
    ensures SplitPair(start, regions, Buddy(z)) && Buddy(Buddy(z)) == z && Parent(Buddy(z)) == Parent(z)
    ensures Buddy(z).order == z.order
  {
    hide Carved, Parent, Buddy, Inside, Low;
    ParentAndBuddy(z);
    BuddyOrder(z);
  }

  lemma TwoPairsFail(start: State, regions: seq<Region>, a: Chunk, e: Chunk)
    requires Separate(regions) && Fresh(start, regions) && SplitPair(start, regions, a) && SplitPair(start, regions, e)
    requires a.order == e.order && Buddy(Parent(a)) == Parent(e) && Buddy(Parent(e)) == Parent(a)
    ensures !AlwaysExact(start)
  {
    hide SplitPair, Separate, Fresh, Buddy, Parent, AlwaysExact;
    FreshShape(start, regions);
    PairListed(start, regions, a);
    var list := start.lists[a.order];
    var k: nat :| k < |list| && list[k] == a.idx;
    var t := FirstHit(list, Four(a, e), k);
    OtherHalf(start, regions, a);
    OtherHalf(start, regions, e);
    if list[t] == a.idx {
      FailsFrom(start, regions, a, e, t);
    } else if list[t] == Buddy(a).idx {
      FailsFrom(start, regions, Buddy(a), e, t);
    } else if list[t] == e.idx {
      FailsFrom(start, regions, e, a, t);
    } else {
      FailsFrom(start, regions, Buddy(e), a, t);
    }
  }

  lemma PairListed(start: State, regions: seq<Region>, z: Chunk)
    requires Fresh(start, regions) && SplitPair(start, regions, z)
    ensures z.order <= MAX_ORDER && z.idx in start.lists[z.order]
  {
    hide Carved, Fresh, Parent, Buddy;
    Listing(start, regions, z);
  }

  lemma ParentCrosses(regions: seq<Region>, c: Chunk)
    requires Dyadic(c) && c.order < MAX_ORDER && !InOneRegion(regions, c)
    ensures !InOneRegion(regions, Parent(c))
  {
    hide Parent, Low, RegionFrames;
    if i: nat :| i < |regions| && Inside(Parent(c), RegionFrames(regions[i])) {
      ParentAndBuddy(c);
      InsideWithin(c, Parent(c), RegionFrames(regions[i]));
    }
  }

  lemma MakePair(start: State, regions: seq<Region>, h: Chunk)
    requires Fresh(start, regions) && Dyadic(h) && h.order < MAX_ORDER && Inside(h, start.free) && !InOneRegion(regions, h)
    requires forall d :: CrossingHalf(regions, d) ==> h.order <= d.order
    ensures h.order > 0 && SplitPair(start, regions, LowerHalf(h)) && Parent(LowerHalf(h)) == h
    ensures !Carved(regions, h)
  {
    hide Carved, CrossingHalf, Inside, Low, Buddy, InOneRegion;
    FreshShape(start, regions);
    CrossingHalves(regions, h);
    LowerHalfOf(h);
  }

  /** Necessity: a usable run with a half that crosses a boundary makes some run fail. */
  lemma CrossingFails(start: State, regions: seq<Region>, h: Chunk)
    requires Separate(regions) && Fresh(start, regions) && Smallest(regions, h)
    ensures !AlwaysExact(start)
  {
    hide Carved, Separate, Fresh, Inside, Low, Buddy, Parent, InOneRegion, SplitPair, AlwaysExact, UsableFrames;
    FreshShape(start, regions);
    var g := Buddy(h);
    ParentAndBuddy(h);
    BuddyOrder(h);
    InsideWithin(h, Parent(h), start.free);
    InsideWithin(g, Parent(h), start.free);
    MakePair(start, regions, h);
    if InOneRegion(regions, g) {
      ParentCrosses(regions, h);
      HalfIsCarved(regions, g);
      FailsBeside(start, regions, g);
    } else {
      MakePair(start, regions, g);
      TwoPairsFail(start, regions, LowerHalf(h), LowerHalf(g));
    }
  }

  /** The bitmap test of deallocation is exact on all runs of a new allocator exactly when each half of
      every managed run of usable frames lies in one region. */
  lemma AlwaysExactIff(start: State, regions: seq<Region>)
    requires Separate(regions) && Fresh(start, regions)
    ensures AlwaysExact(start) <==> HalvesInRegions(regions)
  {
    hide Separate, Fresh, AlwaysExact, Ok, UsableFrames, InOneRegion, Inside, Low, Parent;
    if HalvesInRegions(regions) {
      FreshOk(start, regions);
      OkIsAlwaysExact(start, UsableFrames(regions), Seams(regions));
    } else {
      var c :| Dyadic(c) && c.order < MAX_ORDER && Inside(Parent(c), UsableFrames(regions)) && !InOneRegion(regions, c);
      var h := SmallestCrossing(regions, c);
      CrossingFails(start, regions, h);
    }
  }
}
