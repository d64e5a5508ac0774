/** Free runs that stay split. Where two usable regions touch, a maximal run of usable frames can be
    listed as its two halves, because each half was carved from its own region. Such a run is a seam
    until one of its frames is allocated; from then on the lists treat it like any other run. */
module BuddySeams {
  import opened Bits
  import opened BuddyBlocks

  /** Seams are maximal free runs of at least two frames. */
  ghost predicate Seamed(seams: set<Chunk>, s: set<nat>) {
    forall d :: d in seams ==> d.order > 0 && Canonical(d, s)
  }

  /** What the lists hold: the maximal free runs that are not seams, and the halves of the seams. */
  ghost predicate Listed(c: Chunk, s: set<nat>, seams: set<Chunk>) {
    || (Canonical(c, s) && c !in seams)
    || (Dyadic(c) && c.order < MAX_ORDER && Parent(c) in seams)
  }

  lemma ListedIsInside(c: Chunk, s: set<nat>, seams: set<Chunk>)
    requires Seamed(seams, s) && Listed(c, s, seams)
    ensures Dyadic(c) && Inside(c, s)
  {
    hide Low, Parent;
    if Parent(c) in seams && c.order < MAX_ORDER {
      ParentAndBuddy(c);
      InsideWithin(c, Parent(c), s);
    }
  }

  /** A half of a seam is not maximal, and a maximal run is not half of a seam. */
  lemma HalfNotCanonical(c: Chunk, s: set<nat>, seams: set<Chunk>)
    requires Seamed(seams, s) && Parent(c) in seams
    ensures c.order < MAX_ORDER && !Canonical(c, s)
  {
    hide Low, Inside;
    ParentOrder(c);
  }

  lemma HalvesOfParent(c: Chunk, d: Chunk)
    requires Dyadic(c) && Dyadic(d) && c.order < MAX_ORDER && d.order < MAX_ORDER && Parent(c) == Parent(d)
    ensures d == c || d == Buddy(c)
  {
    hide Low, Parent, Buddy;
    ParentAndBuddy(c);
    ParentAndBuddy(d);
    ParentOrder(c);
    ParentOrder(d);
    BuddyOrder(c);
    if Overlap(c, d) {
      SameOrderSame(c, d);
    } else {
      SameOrderSame(Buddy(c), d);
    }
  }

  lemma BuddyOrder(c: Chunk)
    ensures Buddy(c).order == c.order
  {
  }

  /** Two buddies are the two halves of their parent. */
  lemma BuddyHalves(c: Chunk)
    requires Dyadic(c) && c.order < MAX_ORDER
    ensures Frames(Parent(c)) == Frames(c) + Frames(Buddy(c)) && Frames(c) !! Frames(Buddy(c))
  {
    hide Low, Xor;
    ParentAndBuddy(c);
    assert forall j: nat :: Has(Parent(c), j) <==> Has(c, j) || Has(Buddy(c), j);
  }

  // ---------------------------------------------------------------- taking a listed run out

  /** Taking half of a seam out leaves the other half as a maximal run of its own. */
  lemma TakeHalf(c: Chunk, s: set<nat>, seams: set<Chunk>, d: Chunk)
    requires Seamed(seams, s) && Dyadic(c) && c.order < MAX_ORDER && Parent(c) in seams
    ensures Canonical(d, s - Frames(c)) <==> (Canonical(d, s) && d != Parent(c)) || d == Buddy(c)
  {
    hide Low, Parent, Buddy, Frames, Canonical;
    var p, b := Parent(c), Buddy(c);
    ParentAndBuddy(c);
    BuddyHalves(c);
    TakeOut(p, s, d);
    var t := s - Frames(p);
    assert !Inside(c, t) by { FramesHas(c); NonEmpty(c); }
    BuddyOrder(c);
    PutIn(b, t, d);
    assert t + Frames(b) == s - Frames(c) by { CanonicalFrames(p, s); }
  }

  lemma NonEmpty(c: Chunk)
    ensures Has(c, c.idx)
  {
  }

  lemma CanonicalFrames(c: Chunk, s: set<nat>)
    requires Canonical(c, s)
    ensures Frames(c) <= s
  {
    hide Dyadic, Parent;
    FramesHas(c);
  }

  lemma TakeOutListed(c: Chunk, s: set<nat>, seams: set<Chunk>, d: Chunk)
    requires Seamed(seams, s) && Listed(c, s, seams)
    ensures Listed(d, s - Frames(c), seams - {Parent(c)}) <==> Listed(d, s, seams) && d != c
  {
    hide Low, Parent, Buddy, Frames, Canonical, Dyadic;
    if Parent(c) in seams {
      HalfNotCanonical(c, s, seams);
      TakeHalf(c, s, seams, d);
      TakeHalfListed(c, s, seams, d);
    } else {
      TakeOut(c, s, d);
      assert seams - {Parent(c)} == seams;
    }
  }

  lemma TakeHalfListed(c: Chunk, s: set<nat>, seams: set<Chunk>, d: Chunk)
    requires Seamed(seams, s) && Dyadic(c) && c.order < MAX_ORDER && Parent(c) in seams
    requires Canonical(d, s - Frames(c)) <==> (Canonical(d, s) && d != Parent(c)) || d == Buddy(c)
    ensures Listed(d, s - Frames(c), seams - {Parent(c)}) <==> Listed(d, s, seams) && d != c
  {
    hide Low, Parent, Buddy, Frames, Canonical;
    var p, b := Parent(c), Buddy(c);
    ParentAndBuddy(c);
    BuddyOrder(c);
    HalfNotCanonical(c, s, seams);
    HalfNotCanonical(b, s, seams);
    BuddyDiffers(c);
    if Dyadic(d) && d.order < MAX_ORDER && Parent(d) == p {
      HalvesOfParent(c, d);
    }
    if d in seams {
      if d == b { HalfIsNoSeam(b, s, seams); }
    }
  }

  lemma HalfIsNoSeam(c: Chunk, s: set<nat>, seams: set<Chunk>)
    requires Seamed(seams, s) && c in seams
    ensures Canonical(c, s)
  {
  }

  lemma BuddyDiffers(c: Chunk)
    requires Dyadic(c) && c.order < MAX_ORDER
    ensures Buddy(c) != c
  {
    ParentAndBuddy(c);
  }

  lemma SeamedAfterTakeOut(c: Chunk, s: set<nat>, seams: set<Chunk>)
    requires Seamed(seams, s) && Listed(c, s, seams)
    ensures Seamed(seams - {Parent(c)}, s - Frames(c))
  {
    hide Low, Parent, Buddy, Frames, Canonical, Dyadic;
    forall d | d in seams - {Parent(c)} ensures d.order > 0 && Canonical(d, s - Frames(c)) {
      if Parent(c) in seams {
        HalfNotCanonical(c, s, seams);
        TakeHalf(c, s, seams, d);
      } else {
        TakeOut(c, s, d);
      }
    }
  }

  // ---------------------------------------------------------------- putting a run in

  lemma SeamAvoids(c: Chunk, s: set<nat>, seams: set<Chunk>)
    requires Seamed(seams, s) && s !! Frames(c)
    ensures c !in seams
  {
    hide Dyadic, Parent;
    NonEmpty(c);
    FramesHas(c);
  }

  /** Putting in a run whose buddy is not free lists exactly that run more. */
  lemma PutInListed(c: Chunk, s: set<nat>, seams: set<Chunk>, d: Chunk)
    requires Seamed(seams, s) && Dyadic(c) && s !! Frames(c)
    requires c.order < MAX_ORDER ==> !Inside(Buddy(c), s)
    ensures Listed(d, s + Frames(c), seams) <==> Listed(d, s, seams) || d == c
  {
    hide Low, Parent, Buddy, Frames, Canonical, Dyadic;
    PutIn(c, s, d);
    SeamAvoids(c, s, seams);
  }

  lemma SeamedAfterPutIn(c: Chunk, s: set<nat>, seams: set<Chunk>)
    requires Seamed(seams, s) && Dyadic(c) && s !! Frames(c)
    requires c.order < MAX_ORDER ==> !Inside(Buddy(c), s)
    ensures Seamed(seams, s + Frames(c))
  {
    hide Low, Parent, Buddy, Frames, Canonical, Dyadic;
    forall d | d in seams ensures d.order > 0 && Canonical(d, s + Frames(c)) {
      PutIn(c, s, d);
    }
  }

  // ---------------------------------------------------------------- what can be allocated

  /** A run inside a listed run is no seam. */
  lemma WithinListed(c: Chunk, d: Chunk, s: set<nat>, seams: set<Chunk>)
    requires Seamed(seams, s) && Listed(d, s, seams) && Dyadic(c) && Within(c, d) && c.order <= d.order
    ensures c !in seams
  {
    hide Low, Parent;
    ListedIsInside(d, s, seams);
    if c in seams {
      NonEmpty(c);
      if c.order < d.order {
        LargerContainsParent(c, d);
        InsideWithin(Parent(c), d, s);
      } else {
        SameOrderSame(c, d);
        HalfNotCanonical(c, s, seams);
      }
    }
  }

  /** The lower half of a managed run. */
  function LowerHalf(d: Chunk): Chunk
    requires d.order > 0
  {
    Chunk(d.idx, d.order - 1)
  }

  lemma LowerHalfOf(d: Chunk)
    requires Dyadic(d) && d.order > 0
    ensures Dyadic(LowerHalf(d)) && Parent(LowerHalf(d)) == d
  {
    LowWeaken(d.idx, d.order - 1, d.order);
  }

  /** Every free run that is no seam lies in a listed run or in a seam of higher order. */
  lemma ListedCover(c: Chunk, s: set<nat>, seams: set<Chunk>) returns (d: Chunk)
    requires Seamed(seams, s) && Dyadic(c) && Inside(c, s) && c !in seams
    ensures Listed(d, s, seams) && c.order <= d.order
  {
    hide Low, Parent;
    d := CanonicalCover(c, s);
    if d in seams {
      if c.order == d.order { NonEmpty(c); SameOrderSame(c, d); }
      LowerHalfOf(d);
      d := LowerHalf(d);
    }
  }
}
