/** The buddy allocator's frames as a pool: which are free, which are held by live runs, and how the
    free lists describe the free ones. Covers what each operation keeps over whole runs. */
module BuddyPool {
  import opened Bits
  import opened BuddyBlocks
  import opened BuddySeams

  datatype Pool = Pool(usable: set<nat>, free: set<nat>, live: set<Chunk>)

  /** Live runs are managed runs of usable frames, disjoint from the free frames and from each other,
      and every usable frame is free or live. */
  ghost predicate PoolOk(p: Pool) {
    && p.free <= p.usable
    && (forall c :: c in p.live ==> Dyadic(c) && Inside(c, p.usable - p.free))
    && (forall c, d :: c in p.live && d in p.live && Overlap(c, d) ==> c == d)
    && (forall j :: j in p.usable ==> j in p.free || Owned(p, j))
  }

  ghost predicate Owned(p: Pool, j: nat) {
    exists c :: c in p.live && Has(c, j)
  }

  ghost predicate CanTake(p: Pool, c: Chunk) {
    Dyadic(c) && Inside(c, p.free)
  }

  ghost function Take(p: Pool, c: Chunk): Pool {
    p.(free := p.free - Frames(c), live := p.live + {c})
  }

  ghost function Give(p: Pool, c: Chunk): Pool {
    p.(free := p.free + Frames(c), live := p.live - {c})
  }

  lemma TakeOk(p: Pool, c: Chunk)
    requires PoolOk(p) && CanTake(p, c)
    ensures PoolOk(Take(p, c)) && c !in p.live
  {
    hide Dyadic, Pow2;
    var p' := Take(p, c);
    FramesHas(c);
    NonEmpty(c);
    assert c !in p.live by { if c in p.live { LiveNotFree(p, c, c.idx); } }
    forall d | d in p'.live ensures Dyadic(d) && Inside(d, p'.usable - p'.free) {
    }
    forall d, e | d in p'.live && e in p'.live && Overlap(d, e) ensures d == e {
      var j := CommonFrame(d, e);
      if d == c && e != c { LiveNotFree(p, e, j); }
      if e == c && d != c { LiveNotFree(p, d, j); }
    }
    forall j | j in p'.usable ensures j in p'.free || Owned(p', j) {
      if j in Frames(c) {
        assert c in p'.live && Has(c, j);
      } else if j !in p.free {
        var d :| d in p.live && Has(d, j);
        assert d in p'.live;
      }
    }
  }

  lemma SharedFrame(c: Chunk, d: Chunk, j: nat)
    requires Has(c, j) && Has(d, j)
    ensures Overlap(c, d)
  {
  }

  lemma LiveNotFree(p: Pool, c: Chunk, j: nat)
    requires PoolOk(p) && c in p.live && Has(c, j)
    ensures j !in p.free && j in p.usable
  {
  }

  lemma GiveOk(p: Pool, c: Chunk)
    requires PoolOk(p) && c in p.live
    ensures PoolOk(Give(p, c)) && p.free !! Frames(c) && p.free + Frames(c) <= p.usable
  {
    hide Dyadic, Pow2;
    var p' := Give(p, c);
    FramesHas(c);
    forall j | j in Frames(c) ensures j !in p.free && j in p.usable { LiveNotFree(p, c, j); }
    forall d | d in p'.live ensures Dyadic(d) && Inside(d, p'.usable - p'.free) {
      forall j: nat | Has(d, j) ensures j in p'.usable - p'.free {
        LiveNotFree(p, d, j);
        if Has(c, j) { SharedFrame(c, d, j); }
      }
    }
    forall j | j in p'.usable ensures j in p'.free || Owned(p', j) {
      if j !in p'.free {
        var d :| d in p.live && Has(d, j);
        assert d in p'.live;
      }
    }
  }

  /** `give` undoes `take`. */
  lemma GiveUndoesTake(p: Pool, c: Chunk)
    requires PoolOk(p) && CanTake(p, c)
    ensures c in Take(p, c).live && Give(Take(p, c), c) == p
  {
    TakeOk(p, c);
    FramesHas(c);
    forall j | j in Frames(c) ensures j in p.free { }
    assert Give(Take(p, c), c).free == p.free;
    assert Give(Take(p, c), c).live == p.live;
  }

  /** With nothing live, every usable frame is free. */
  lemma NothingLive(p: Pool)
    requires PoolOk(p) && p.live == {}
    ensures p.free == p.usable
  {
  }

  // ---------------------------------------------------------------- conservation

  lemma {:induction false} IntervalSize(a: nat, b: nat, s: set<nat>)
    requires a <= b && forall j: nat :: j in s <==> a <= j < b
    ensures |s| == b - a
    decreases b
  {
    if a == b {
      assert s == {};
    } else {
      var t := s - {b - 1};
      IntervalSize(a, b - 1, t);
      assert s == t + {b - 1};
    }
  }

  lemma FrameCount(c: Chunk)
    ensures |Frames(c)| == Pow2(c.order)
  {
    FramesHas(c);
    IntervalSize(c.idx, End(c), Frames(c));
  }

  lemma DisjointSize(s: set<nat>, t: set<nat>)
    requires s !! t
    ensures |s + t| == |s| + |t|
  {
  }

  /** Taking a run moves exactly `2^order` frames from free to allocated. */
  lemma TakeCount(p: Pool, c: Chunk)
    requires PoolOk(p) && CanTake(p, c)
    ensures |Take(p, c).free| + Pow2(c.order) == |p.free|
  {
    FramesHas(c);
    forall j | j in Frames(c) ensures j in p.free { }
    DisjointSize(p.free - Frames(c), Frames(c));
    assert p.free - Frames(c) + Frames(c) == p.free;
    FrameCount(c);
  }

  lemma GiveCount(p: Pool, c: Chunk)
    requires PoolOk(p) && c in p.live
    ensures |Give(p, c).free| == |p.free| + Pow2(c.order) <= |p.usable|
  {
    GiveOk(p, c);
    DisjointSize(p.free, Frames(c));
    FrameCount(c);
    SubsetSize(p.free + Frames(c), p.usable);
  }

  lemma {:induction false} SubsetSize(s: set<nat>, t: set<nat>)
    requires s <= t
    ensures |s| <= |t|
  {
    DisjointSize(s, t - s);
    assert s + (t - s) == t;
  }

  // ---------------------------------------------------------------- runs

  ghost predicate Step(p: Pool, p': Pool) {
    || p' == p
    || (exists c :: CanTake(p, c) && p' == Take(p, c))
    || (exists c :: c in p.live && p' == Give(p, c))
  }

  /** A run starts with every usable frame free. */
  ghost predicate IsRun(run: seq<Pool>) {
    && |run| > 0 && run[0].free == run[0].usable && run[0].live == {}
    && forall i: nat :: i + 1 < |run| ==> Step(run[i], run[i + 1])
  }

  lemma {:induction false} RunKeepsPool(run: seq<Pool>, i: nat)
    requires IsRun(run) && i < |run|
    ensures PoolOk(run[i]) && run[i].usable == run[0].usable
  {
    if i > 0 {
      RunKeepsPool(run, i - 1);
      assert Step(run[i - 1], run[i - 1 + 1]);
      var p, p' := run[i - 1], run[i];
      if p' == p {
      } else if c :| CanTake(p, c) && p' == Take(p, c) {
        TakeOk(p, c);
      } else {
        var c :| c in p.live && p' == Give(p, c);
        GiveOk(p, c);
      }
    }
  }

  /** Returning every run, in whatever order, restores the initial pool and so the same maximal free runs. */
  lemma RunRestores(run: seq<Pool>)
    requires IsRun(run) && run[|run| - 1].live == {}
    ensures run[|run| - 1] == run[0]
    ensures forall c: Chunk :: Canonical(c, run[|run| - 1].free) <==> Canonical(c, run[0].free)
  {
    RunKeepsPool(run, |run| - 1);
    NothingLive(run[|run| - 1]);
  }

  // ---------------------------------------------------------------- lists and free frames

  /** The list of order `k` holds exactly the maximal free runs of that order, except that seams are
      listed as their halves. */
  ghost predicate Content(lists: seq<seq<nat>>, free: set<nat>, seams: set<Chunk>) {
    && |lists| == MAX_ORDER + 1
    && Seamed(seams, free)
    && forall k: nat, i: nat {:trigger i in lists[k]} ::
         k <= MAX_ORDER ==> (i in lists[k] <==> Listed(Chunk(i, k), free, seams))
  }

  /** Without seams the lists are the canonical decomposition. */
  lemma ContentCanonical(lists: seq<seq<nat>>, free: set<nat>)
    requires |lists| == MAX_ORDER + 1
    ensures Content(lists, free, {}) <==>
            forall k: nat, i: nat :: k <= MAX_ORDER ==> (i in lists[k] <==> Canonical(Chunk(i, k), free))
  {
    hide Canonical;
    forall k: nat, i: nat ensures Listed(Chunk(i, k), free, {}) <==> Canonical(Chunk(i, k), free) { }
  }

  lemma ContentAfterTakeOut(lists: seq<seq<nat>>, lists': seq<seq<nat>>, free: set<nat>, seams: set<Chunk>, c: Chunk)
    requires Content(lists, free, seams) && Listed(c, free, seams) && |lists'| == |lists|
    requires forall k: nat, i: nat :: k <= MAX_ORDER ==>
               (i in lists'[k] <==> i in lists[k] && Chunk(i, k) != c)
    ensures Content(lists', free - Frames(c), seams - {Parent(c)})
  {
    hide Listed, Seamed, Frames, Parent;
    SeamedAfterTakeOut(c, free, seams);
    forall k: nat, i: nat | k <= MAX_ORDER
      ensures i in lists'[k] <==> Listed(Chunk(i, k), free - Frames(c), seams - {Parent(c)})
    {
      TakeOutListed(c, free, seams, Chunk(i, k));
    }
  }

  lemma ContentAfterPutIn(lists: seq<seq<nat>>, lists': seq<seq<nat>>, free: set<nat>, seams: set<Chunk>, c: Chunk)
    requires Content(lists, free, seams) && Dyadic(c) && free !! Frames(c) && |lists'| == |lists|
    requires c.order < MAX_ORDER ==> !Inside(Buddy(c), free)
    requires forall k: nat, i: nat :: k <= MAX_ORDER ==>
               (i in lists'[k] <==> i in lists[k] || Chunk(i, k) == c)
    ensures Content(lists', free + Frames(c), seams)
  {
    hide Listed, Seamed, Frames, Dyadic, Buddy;
    SeamedAfterPutIn(c, free, seams);
    forall k: nat, i: nat | k <= MAX_ORDER
      ensures i in lists'[k] <==> Listed(Chunk(i, k), free + Frames(c), seams)
    {
      PutInListed(c, free, seams, Chunk(i, k));
    }
  }

  /** A run with no free frame is in no list, at any order. */
  lemma NotListed(lists: seq<seq<nat>>, free: set<nat>, seams: set<Chunk>, c: Chunk, k: nat)
    requires Content(lists, free, seams) && free !! Frames(c) && k <= MAX_ORDER
    ensures c.idx !in lists[k]
  {
    hide Listed, Seamed;
    NonEmpty(c);
    FramesHas(c);
    if c.idx in lists[k] {
      ListedIsInside(Chunk(c.idx, k), free, seams);
      NonEmpty(Chunk(c.idx, k));
    }
  }

  /** Some list of order at least `order` is non-empty. */
  ghost predicate SomeList(lists: seq<seq<nat>>, order: nat)
    requires |lists| == MAX_ORDER + 1
  {
    exists k: nat :: order <= k <= MAX_ORDER && lists[k] != []
  }

  /** An aligned free run of the order exists that is not a seam. */
  ghost predicate SomeRun(free: set<nat>, seams: set<Chunk>, order: nat) {
    exists i: nat :: Dyadic(Chunk(i, order)) && Inside(Chunk(i, order), free) && Chunk(i, order) !in seams
  }

  /** Completeness: some list of order at least `order` is non-empty exactly when an aligned free run
      of that order exists that is not a seam. */
  lemma ListsComplete(lists: seq<seq<nat>>, free: set<nat>, seams: set<Chunk>, order: nat)
    requires Content(lists, free, seams) && order <= MAX_ORDER
    ensures SomeList(lists, order) <==> SomeRun(free, seams, order)
  {
    hide Dyadic, Listed, Seamed;
    if k: nat :| order <= k <= MAX_ORDER && lists[k] != [] {
      var i := lists[k][0];
      assert i in lists[k];
      var c := Chunk(i, k);
      ListedIsInside(c, free, seams);
      PrefixRun(c, order);
      InsideWithin(Chunk(i, order), c, free);
      WithinListed(Chunk(i, order), c, free, seams);
    }
    if i: nat :| Dyadic(Chunk(i, order)) && Inside(Chunk(i, order), free) && Chunk(i, order) !in seams {
      var d := ListedCover(Chunk(i, order), free, seams);
      ListedIsInside(d, free, seams);
      assert Chunk(d.idx, d.order) == d;
      DyadicOrder(d);
      assert d.idx in lists[d.order];
    }
  }

  lemma DyadicOrder(c: Chunk)
    requires Dyadic(c)
    ensures c.order <= MAX_ORDER
  {
  }

  /** A smaller run at the same start is managed too. */
  lemma PrefixRun(c: Chunk, order: nat)
    requires Dyadic(c) && order <= c.order
    ensures Dyadic(Chunk(c.idx, order)) && Within(Chunk(c.idx, order), c)
  {
    LowWeaken(c.idx, order, c.order);
    Pow2Monotone(order, c.order);
  }

  lemma ListedIsFree(lists: seq<seq<nat>>, free: set<nat>, seams: set<Chunk>, k: nat, i: nat)
    requires Content(lists, free, seams) && k <= MAX_ORDER && i in lists[k]
    ensures Listed(Chunk(i, k), free, seams) && Dyadic(Chunk(i, k)) && Inside(Chunk(i, k), free) && i in free
  {
    hide Listed, Seamed, Dyadic;
    ListedIsInside(Chunk(i, k), free, seams);
    NonEmpty(Chunk(i, k));
  }

  /** Pushing a run whose buddy is not free keeps the lists right. */
  lemma PushContent(lists: seq<seq<nat>>, free: set<nat>, seams: set<Chunk>, c: Chunk)
    requires Content(lists, free, seams) && Dyadic(c) && free !! Frames(c)
    requires c.order < MAX_ORDER ==> !Inside(Buddy(c), free)
    ensures Content(lists[c.order := [c.idx] + lists[c.order]], free + Frames(c), seams)
  {
    hide Listed, Seamed, Frames, Buddy, Low;
    var lists' := lists[c.order := [c.idx] + lists[c.order]];
    forall k: nat, i: nat | k <= MAX_ORDER
      ensures i in lists'[k] <==> i in lists[k] || Chunk(i, k) == c
    {
    }
    ContentAfterPutIn(lists, lists', free, seams, c);
  }

  /** Taking a listed run out keeps the lists right. */
  lemma PopContent(lists: seq<seq<nat>>, lists': seq<seq<nat>>, free: set<nat>, seams: set<Chunk>, c: Chunk)
    requires Content(lists, free, seams) && c.order <= MAX_ORDER && c.idx in lists[c.order] && |lists'| == |lists|
    requires forall m: nat :: m <= MAX_ORDER && m != c.order ==> lists'[m] == lists[m]
    requires forall x :: x in lists'[c.order] <==> x in lists[c.order] && x != c.idx
    ensures Content(lists', free - Frames(c), seams - {Parent(c)})
  {
    hide Listed, Seamed, Frames, Parent;
    assert Chunk(c.idx, c.order) == c;
    forall m: nat, i: nat | m <= MAX_ORDER
      ensures i in lists'[m] <==> i in lists[m] && Chunk(i, m) != c
    {
    }
    ContentAfterTakeOut(lists, lists', free, seams, c);
  }

  /** Every seam is a maximal run of usable frames, so no usable run is twice as large. */
  ghost predicate Sealed(seams: set<Chunk>, usable: set<nat>) {
    forall d :: d in seams ==> Canonical(d, usable)
  }

  /** The bitmap test finds a whole listed run: all frames of the buddy are free exactly when the buddy
      itself is in the list of its own order. */
  lemma BuddyListed(lists: seq<seq<nat>>, free: set<nat>, seams: set<Chunk>, usable: set<nat>, c: Chunk)
    requires Content(lists, free, seams) && Sealed(seams, usable)
    requires Dyadic(c) && c.order < MAX_ORDER && free !! Frames(c) && free <= usable && Frames(c) <= usable
    ensures Inside(Buddy(c), free) <==> Buddy(c).idx in lists[c.order]
  {
    hide Low, Xor, Canonical, Parent, Frames;
    var b := Buddy(c);
    assert b == Chunk(b.idx, c.order);
    ParentAndBuddy(c);
    if Inside(b, free) {
      assert !Inside(c, free) by { FramesHas(c); NonEmpty(c); }
      BuddyIsCanonical(c, free);
      if b in seams { SeamNotHalf(c, b, free, usable); }
    }
    if b.idx in lists[c.order] { ListedIsInside(b, free, seams); }
  }

  lemma SeamNotHalf(c: Chunk, b: Chunk, free: set<nat>, usable: set<nat>)
    requires Dyadic(c) && c.order < MAX_ORDER && b == Buddy(c) && Inside(b, free) && free <= usable && Frames(c) <= usable
    ensures !Canonical(b, usable)
  {
    hide Low, Xor, Parent;
    ParentAndBuddy(c);
    FramesHas(c);
    InsideSubset(b, free, usable);
    ParentInside(c, usable);
  }

  /** The two halves of a managed run. */
  lemma Halves(idx: nat, m: nat)
    requires Dyadic(Chunk(idx, m + 1))
    ensures Dyadic(Chunk(idx, m)) && Dyadic(Chunk(idx + Pow2(m), m))
    ensures Buddy(Chunk(idx + Pow2(m), m)) == Chunk(idx, m)
    ensures Frames(Chunk(idx, m + 1)) == Frames(Chunk(idx, m)) + Frames(Chunk(idx + Pow2(m), m))
    ensures Frames(Chunk(idx, m)) !! Frames(Chunk(idx + Pow2(m), m))
  {
    hide Low, Xor, TestBit;
    var c := Chunk(idx, m);
    LowWeaken(idx, m, m + 1);
    LowStep(idx, m);
    XorPow2(idx, m);
    assert !TestBit(idx, m);
    ParentAndBuddy(c);
    assert Pow2(m + 1) == 2 * Pow2(m);
    assert Buddy(c) == Chunk(idx + Pow2(m), m);
    assert forall j: nat :: Has(Chunk(idx, m + 1), j) <==> Has(c, j) || Has(Buddy(c), j);
  }
}
