/** The frame bitmap of the buddy allocator: 2048 words of 64 bits, one bit per tracked frame. */
module BuddyBitmap {
  import opened Bits

  const MAX_TRACKED_FRAMES: nat := 131_072
  const BITMAP_LEN: nat := 2048
  const WORD_LIMIT: nat := 0x1_0000_0000_0000_0000

  predicate BitAt(bitmap: seq<nat>, idx: nat)
    requires |bitmap| == BITMAP_LEN && idx < MAX_TRACKED_FRAMES
  {
    TestBit(bitmap[idx / 64], idx % 64)
  }

  /** The bitmap holds exactly the frames of `s`. */
  ghost predicate BitmapOk(bitmap: seq<nat>, s: set<nat>) {
    && |bitmap| == BITMAP_LEN
    && (forall w: nat :: w < BITMAP_LEN ==> bitmap[w] < WORD_LIMIT)
    && (forall i :: i in s ==> i < MAX_TRACKED_FRAMES)
    && (forall i: nat {:trigger BitAt(bitmap, i)} :: i < MAX_TRACKED_FRAMES ==> (BitAt(bitmap, i) <==> i in s))
  }

  /** `bitmap[word] |= bit` */
  function WithFree(bitmap: seq<nat>, idx: nat): seq<nat>
    requires |bitmap| == BITMAP_LEN && idx < MAX_TRACKED_FRAMES
  {
    bitmap[idx / 64 := Or(bitmap[idx / 64], Pow2(idx % 64))]
  }

  /** `bitmap[word] &= !bit` */
  function WithAllocated(bitmap: seq<nat>, idx: nat): seq<nat>
    requires |bitmap| == BITMAP_LEN && idx < MAX_TRACKED_FRAMES && Pow2(idx % 64) < Pow2(64)
  {
    bitmap[idx / 64 := And(bitmap[idx / 64], Not(Pow2(idx % 64), 64))]
  }

  lemma BitBelow64(idx: nat)
    ensures Pow2(idx % 64) < Pow2(64) == WORD_LIMIT
  {
    hide Pow2;
    Pow2Values();
    Pow2Monotone(idx % 64, 64);
  }

  lemma EmptyBitmap(bitmap: seq<nat>)
    requires |bitmap| == BITMAP_LEN && forall w: nat :: w < BITMAP_LEN ==> bitmap[w] == 0
    ensures BitmapOk(bitmap, {})
  {
    forall i: nat | i < MAX_TRACKED_FRAMES ensures !BitAt(bitmap, i) { TestBitZero(i % 64); }
  }

  /** Marking a frame free sets its bit and no other. */
  lemma MarkFreeOk(bitmap: seq<nat>, s: set<nat>, idx: nat)
    requires BitmapOk(bitmap, s) && idx < MAX_TRACKED_FRAMES
    ensures BitmapOk(WithFree(bitmap, idx), s + {idx})
  {
    hide TestBit, Or, Pow2;
    BitBelow64(idx);
    SetBit(bitmap[idx / 64], idx % 64, 64);
    var bitmap' := WithFree(bitmap, idx);
    forall i: nat | i < MAX_TRACKED_FRAMES ensures BitAt(bitmap', i) <==> i in s + {idx} {
      assert BitAt(bitmap, i) <==> i in s;
    }
  }

  /** Marking a frame allocated clears its bit and no other. */
  lemma MarkAllocatedOk(bitmap: seq<nat>, s: set<nat>, idx: nat)
    requires BitmapOk(bitmap, s) && idx < MAX_TRACKED_FRAMES && Pow2(idx % 64) < Pow2(64)
    ensures BitmapOk(WithAllocated(bitmap, idx), s - {idx})
  {
    hide TestBit, And, Pow2, Not;
    BitBelow64(idx);
    ClearBit(bitmap[idx / 64], idx % 64, 64);
    var bitmap' := WithAllocated(bitmap, idx);
    forall i: nat | i < MAX_TRACKED_FRAMES ensures BitAt(bitmap', i) <==> i in s - {idx} {
      assert BitAt(bitmap, i) <==> i in s;
    }
  }
}
