/** Aligned power-of-two runs of frames, and the canonical decomposition of a set of frames.

The buddy allocator's free lists hold, at every quiescent point, exactly the maximal aligned runs of
free frames. This module defines those runs and proves that the decomposition is disjoint and
complete, and that taking a run out or putting one in changes it locally. */
module BuddyBlocks {
  import opened Bits

  const MAX_ORDER: nat := 10

  /** The run of `2^order` frames starting at `idx`. */
  datatype Chunk = Chunk(idx: nat, order: nat)

  function End(c: Chunk): nat {
    c.idx + Pow2(c.order)
  }

  /** A run the allocator may manage: order at most 10, aligned to its own size. */
  predicate Dyadic(c: Chunk) {
    c.order <= MAX_ORDER && Low(c.idx, c.order) == 0
  }

  predicate Has(c: Chunk, j: nat) {
    c.idx <= j < End(c)
  }

  ghost function Frames(c: Chunk): set<nat> {
    set j: nat | j < End(c) && Has(c, j)
  }

  /** All frames of the run are in `s`. */
  ghost predicate Inside(c: Chunk, s: set<nat>) {
    forall j: nat :: Has(c, j) ==> j in s
  }

  ghost predicate Within(c: Chunk, d: Chunk) {
    d.idx <= c.idx && End(c) <= End(d)
  }

  ghost predicate Overlap(c: Chunk, d: Chunk) {
    c.idx < End(d) && d.idx < End(c)
  }

  /** The run of twice the size that contains `c`. */
  function Parent(c: Chunk): Chunk {
    LowBound(c.idx, c.order + 1);
    Chunk(c.idx - Low(c.idx, c.order + 1), c.order + 1)
  }

  /** The other half of the parent: `idx ^ (1 << order)`. */
  function Buddy(c: Chunk): Chunk {
    Chunk(Xor(c.idx, Pow2(c.order)), c.order)
  }

  /** A maximal managed run of frames in `s`. */
  ghost predicate Canonical(c: Chunk, s: set<nat>) {
    && Dyadic(c) && Inside(c, s)
    && (c.order < MAX_ORDER ==> !Inside(Parent(c), s))
  }

  // ---------------------------------------------------------------- geometry of aligned runs

  /** Aligned runs are nested or disjoint. */
  lemma Nested(c: Chunk, d: Chunk)
    requires Dyadic(c) && Dyadic(d) && c.order <= d.order && Overlap(c, d)
    ensures Within(c, d)
  {
    hide Low;
    var k, m := c.order, d.order;
    LowWeaken(d.idx, k, m);
    LowPow2(k, m);
    LowAdd(d.idx, Pow2(m), k);
    assert Low(d.idx + Pow2(m), k) == 0;
    if c.idx < d.idx {
      MultiplesApart(c.idx, d.idx, k);
    }
    if End(c) > End(d) {
      MultiplesApart(c.idx, d.idx + Pow2(m), k);
    }
  }

  /** The parent is an aligned run made of exactly the two buddies. */
  lemma ParentAndBuddy(c: Chunk)
    requires Dyadic(c) && c.order < MAX_ORDER
    ensures Dyadic(Parent(c)) && Within(c, Parent(c)) && Pow2(c.order + 1) == 2 * Pow2(c.order)
    ensures Dyadic(Buddy(c)) && Within(Buddy(c), Parent(c)) && !Overlap(c, Buddy(c))
    ensures Parent(c).idx == if c.idx < Buddy(c).idx then c.idx else Buddy(c).idx
    ensures Parent(Buddy(c)) == Parent(c) && Buddy(Buddy(c)) == c
    ensures Buddy(c).idx == c.idx + Pow2(c.order) || (Buddy(c).idx + Pow2(c.order) == c.idx)
  {
    hide Low, Xor, TestBit;
    var k := c.order;
    LowStep(c.idx, k);
    XorPow2(c.idx, k);
    LowOfRounded(c.idx, k + 1);
    assert Pow2(k + 1) == 2 * Pow2(k);
    var b := Buddy(c).idx;
    LowPow2(k, k);
    if TestBit(c.idx, k) {
      assert b == Parent(c).idx;
      LowWeaken(b, k, k + 1);
      LowStep(b, k);
      assert Low(b, k + 1) == 0;
      assert !TestBit(b, k);
    } else {
      LowAdd(c.idx, Pow2(k), k);
      assert Low(b, k) == 0;
      LowTop(c.idx, k);
      LowStep(b, k);
    }
    XorPow2(b, k);
  }

  /** Adding `1 << k` to a multiple of `1 << (k + 1)` sets bit `k`. */
  lemma {:induction false} LowTop(x: nat, k: nat)
    requires Low(x, k + 1) == 0
    ensures TestBit(x + Pow2(k), k)
  {
    if k > 0 {
      assert Low(x / 2, k) == 0;
      assert (x + Pow2(k)) / 2 == x / 2 + Pow2(k - 1);
      LowTop(x / 2, k - 1);
    }
  }

  lemma InsideWithin(c: Chunk, d: Chunk, s: set<nat>)
    requires Within(c, d) && Inside(d, s)
    ensures Inside(c, s)
  {
    forall j: nat | Has(c, j) ensures j in s { assert Has(d, j); }
  }

  lemma ParentInside(c: Chunk, s: set<nat>)
    requires Dyadic(c) && c.order < MAX_ORDER
    ensures Inside(Parent(c), s) <==> Inside(c, s) && Inside(Buddy(c), s)
  {
    ParentAndBuddy(c);
    hide Parent, Buddy, Low;
    if Inside(Parent(c), s) {
      InsideWithin(c, Parent(c), s);
      InsideWithin(Buddy(c), Parent(c), s);
    }
    if Inside(c, s) && Inside(Buddy(c), s) {
      forall j: nat | Has(Parent(c), j) ensures j in s {
        assert Has(c, j) || Has(Buddy(c), j);
      }
    }
  }

  /** An aligned run that meets `c` and is larger contains its parent. */
  lemma LargerContainsParent(c: Chunk, d: Chunk)
    requires Dyadic(c) && Dyadic(d) && c.order < d.order && Overlap(c, d)
    ensures Within(Parent(c), d)
  {
    ParentAndBuddy(c);
    hide Parent, Buddy, Low;
    Nested(c, d);
    Nested(Parent(c), d);
  }

  lemma SameOrderSame(c: Chunk, d: Chunk)
    requires Dyadic(c) && Dyadic(d) && c.order == d.order && Overlap(c, d)
    ensures c == d
  {
    Nested(c, d);
    Nested(d, c);
  }

  // ---------------------------------------------------------------- the decomposition

  /** Canonical runs do not overlap. */
  lemma CanonicalDisjoint(c: Chunk, d: Chunk, s: set<nat>)
    requires Canonical(c, s) && Canonical(d, s) && Overlap(c, d)
    ensures c == d
  {
    hide Low, Parent;
    if c.order < d.order {
      LargerContainsParent(c, d);
      InsideWithin(Parent(c), d, s);
    } else if d.order < c.order {
      LargerContainsParent(d, c);
      InsideWithin(Parent(d), c, s);
    } else {
      SameOrderSame(c, d);
    }
  }

  /** Every managed run of free frames lies in a canonical run. */
  lemma {:induction false} CanonicalCover(c: Chunk, s: set<nat>) returns (d: Chunk)
    requires Dyadic(c) && Inside(c, s)
    ensures Canonical(d, s) && c.order <= d.order && Within(c, d)
    decreases MAX_ORDER - c.order
  {
    hide Low, Parent;
    if c.order < MAX_ORDER && Inside(Parent(c), s) {
      ParentAndBuddy(c);
      ParentOrder(c);
      d := CanonicalCover(Parent(c), s);
    } else {
      d := c;
    }
  }

  lemma ParentOrder(c: Chunk)
    ensures Parent(c).order == c.order + 1
  {
  }

  /** The bitmap test of deallocation is exact: a buddy whose frames are all free, next to a run with
      no free frame, is a single canonical run of that very order. */
  lemma BuddyIsCanonical(c: Chunk, s: set<nat>)
    requires Dyadic(c) && c.order < MAX_ORDER && !Inside(c, s)
    ensures Inside(Buddy(c), s) <==> Canonical(Buddy(c), s)
  {
    ParentAndBuddy(c);
    ParentInside(Buddy(c), s);
  }

  lemma FramesHas(c: Chunk)
    ensures forall j: nat :: j in Frames(c) <==> Has(c, j)
  {
  }

  lemma InsideSubset(c: Chunk, s: set<nat>, t: set<nat>)
    requires Inside(c, s) && s <= t
    ensures Inside(c, t)
  {
  }

  lemma CommonFrame(c: Chunk, d: Chunk) returns (j: nat)
    requires Overlap(c, d)
    ensures Has(c, j) && Has(d, j)
  {
    j := if c.idx < d.idx then d.idx else c.idx;
  }

  /** A run avoids `c` when all its frames lie outside `c`. */
  lemma AvoidsRemoved(c: Chunk, d: Chunk, s: set<nat>)
    requires Inside(d, s) && s !! Frames(c)
    ensures !Overlap(c, d)
  {
    if Overlap(c, d) { var j := CommonFrame(c, d); }
  }

  lemma InsideMinus(c: Chunk, d: Chunk, s: set<nat>)
    requires Inside(d, s) && !Overlap(c, d)
    ensures Inside(d, s - Frames(c))
  {
  }

  lemma InsidePlus(c: Chunk, d: Chunk, s: set<nat>)
    requires Inside(d, s + Frames(c)) && !Overlap(c, d)
    ensures Inside(d, s)
  {
    forall j: nat | Has(d, j) ensures j in s { assert !Has(c, j); }
  }

  /** If the parent of `d` meets a canonical run that `d` itself avoids, the parent is not all free. */
  lemma OverlapParent(c: Chunk, d: Chunk, s: set<nat>)
    requires Canonical(c, s) && Dyadic(d) && d.order < MAX_ORDER && !Overlap(c, d)
    requires Overlap(c, Parent(d))
    ensures !Inside(Parent(d), s)
  {
    hide Low, Parent;
    ParentAndBuddy(d);
    ParentOrder(d);
    if c.order < Parent(d).order {
      LargerContainsParent(c, Parent(d));
      if Inside(Parent(d), s) { InsideWithin(Parent(c), Parent(d), s); }
    } else {
      Nested(Parent(d), c);
    }
  }

  /** Taking a canonical run out leaves every other canonical run canonical, and creates none. */
  lemma TakeOut(c: Chunk, s: set<nat>, d: Chunk)
    requires Canonical(c, s)
    ensures Canonical(d, s - Frames(c)) <==> Canonical(d, s) && d != c
  {
    hide Low, Parent, Frames;
    if Canonical(d, s) && d != c { TakeOutKeeps(c, s, d); }
    if Canonical(d, s - Frames(c)) { TakeOutOnly(c, s, d); }
  }

  lemma TakeOutKeeps(c: Chunk, s: set<nat>, d: Chunk)
    requires Canonical(c, s) && Canonical(d, s) && d != c
    ensures Canonical(d, s - Frames(c))
  {
    hide Low, Parent, Frames;
    if Overlap(c, d) { CanonicalDisjoint(c, d, s); }
    InsideMinus(c, d, s);
    if Inside(Parent(d), s - Frames(c)) { InsideSubset(Parent(d), s - Frames(c), s); }
  }

  lemma TakeOutOnly(c: Chunk, s: set<nat>, d: Chunk)
    requires Canonical(c, s) && Canonical(d, s - Frames(c))
    ensures Canonical(d, s) && d != c
  {
    hide Low, Parent, Frames;
    InsideSubset(d, s - Frames(c), s);
    AvoidsRemoved(c, d, s - Frames(c));
    if d.order < MAX_ORDER {
      if Overlap(c, Parent(d)) {
        OverlapParent(c, d, s);
      } else if Inside(Parent(d), s) {
        InsideMinus(c, Parent(d), s);
      }
    }
  }

  /** Putting in a run whose buddy is not free adds exactly that run to the decomposition. */
  lemma PutIn(c: Chunk, s: set<nat>, d: Chunk)
    requires Dyadic(c) && s !! Frames(c)
    requires c.order < MAX_ORDER ==> !Inside(Buddy(c), s)
    ensures Canonical(d, s + Frames(c)) <==> Canonical(d, s) || d == c
  {
    hide Low, Parent, Buddy, Frames;
    if Canonical(d, s + Frames(c)) { PutInOnly(c, s, d); }
    if d == c { PutInSelf(c, s); }
    if Canonical(d, s) { PutInKeeps(c, s, d); }
  }

  lemma PutInSelf(c: Chunk, s: set<nat>)
    requires Dyadic(c) && s !! Frames(c)
    requires c.order < MAX_ORDER ==> !Inside(Buddy(c), s)
    ensures Canonical(c, s + Frames(c))
  {
    hide Low, Parent, Buddy;
    if c.order < MAX_ORDER {
      ParentAndBuddy(c);
      ParentInside(c, s + Frames(c));
      if Inside(Buddy(c), s + Frames(c)) { InsidePlus(c, Buddy(c), s); }
    }
  }

  lemma PutInOnly(c: Chunk, s: set<nat>, d: Chunk)
    requires Dyadic(c) && s !! Frames(c)
    requires c.order < MAX_ORDER ==> !Inside(Buddy(c), s)
    requires Canonical(d, s + Frames(c))
    ensures Canonical(d, s) || d == c
  {
    hide Low, Parent, Buddy, Frames;
    PutInSelf(c, s);
    if Overlap(c, d) {
      CanonicalDisjoint(c, d, s + Frames(c));
    } else {
      InsidePlus(c, d, s);
      if Inside(Parent(d), s) { InsideSubset(Parent(d), s, s + Frames(c)); }
    }
  }

  lemma PutInKeeps(c: Chunk, s: set<nat>, d: Chunk)
    requires Dyadic(c) && s !! Frames(c)
    requires c.order < MAX_ORDER ==> !Inside(Buddy(c), s)
    requires Canonical(d, s)
    ensures Canonical(d, s + Frames(c))
  {
    hide Low, Parent, Buddy, Frames;
    var t := s + Frames(c);
    InsideSubset(d, s, t);
    AvoidsRemoved(c, d, s);
    PutInSelf(c, s);
    if d.order < MAX_ORDER {
      if Overlap(c, Parent(d)) {
        OverlapParent(c, d, t);
      } else if Inside(Parent(d), t) {
        InsidePlus(c, Parent(d), s);
      }
    }
  }
}
