/** The TLSF heap as a physical chain of blocks: what `malloc` and `free` do to it, and what every
    run keeps. The allocator class refines these transitions. */
module TlsfHeap {
  import opened Bits
  import opened TlsfMapping

  /** A physical block. A used block remembers the request it serves. */
  datatype Block =
    | Free(size: nat)
    | Used(size: nat, ptr: nat, request: nat, align: nat)

  /** Block start address to block. */
  type Blocks = map<nat, Block>

  datatype Heap = Heap(start: nat, end: nat, blocks: Blocks)

  // ---------------------------------------------------------------- request arithmetic

  /** `align.max(HEADER_SIZE)` */
  function EffectiveAlign(align: nat): nat {
    Max(align, HEADER_SIZE)
  }

  /** `malloc`'s requests: a power-of-two alignment, and sums that fit a `usize`. */
  predicate Requestable(size: nat, align: nat) {
    IsPow2(align) && size + EffectiveAlign(align) + 7 < USIZE_LIMIT
  }

  lemma EffectiveAlignIsPow2(align: nat)
    requires IsPow2(align)
    ensures IsPow2(EffectiveAlign(align))
  {
  }

  lemma EightIsPow2()
    ensures IsPow2(8)
  {
    assert IsPow2(2);
  }

  /** The block size `malloc` searches for: header, worst-case padding and payload. */
  function Needed(size: nat, align: nat): nat
    requires Requestable(size, align)
  {
    Max(AlignUp(HEADER_SIZE + (EffectiveAlign(align) - HEADER_SIZE) + size, 8), MIN_BLOCK_SIZE)
  }

  /** Addresses at which a request can be placed without overflowing a `usize`. */
  predicate Placeable(b: nat, size: nat, align: nat) {
    Requestable(size, align) && b + HEADER_SIZE + size + EffectiveAlign(align) + 7 < USIZE_LIMIT
  }

  /** The aligned user pointer inside a block at `b`. */
  function UserPtr(b: nat, size: nat, align: nat): nat
    requires Placeable(b, size, align)
  {
    AlignUp(b + HEADER_SIZE, EffectiveAlign(align))
  }

  lemma UserPtrBounds(b: nat, size: nat, align: nat)
    requires Placeable(b, size, align)
    ensures b + HEADER_SIZE <= UserPtr(b, size, align) < b + HEADER_SIZE + EffectiveAlign(align)
    ensures UserPtr(b, size, align) % EffectiveAlign(align) == 0
    ensures (b + HEADER_SIZE) % EffectiveAlign(align) == 0 <==> UserPtr(b, size, align) == b + HEADER_SIZE
  {
    hide AlignUp, IsPow2;
    EffectiveAlignIsPow2(align);
    AlignUpIsLeastMultiple(b + HEADER_SIZE, EffectiveAlign(align));
  }

  lemma UserPtrRange(b: nat, size: nat, align: nat)
    requires Placeable(b, size, align)
    ensures b + HEADER_SIZE <= UserPtr(b, size, align) < b + HEADER_SIZE + EffectiveAlign(align)
  {
    hide *;
    UserPtrBounds(b, size, align);
  }

  /** The bytes a request takes from a block at `b`: header, actual padding and payload. */
  function TotalConsumed(b: nat, size: nat, align: nat): nat
    requires Placeable(b, size, align)
  {
    UserPtrBounds(b, size, align);
    Max(AlignUp(HEADER_SIZE + (UserPtr(b, size, align) - (b + HEADER_SIZE)) + size, 8), MIN_BLOCK_SIZE)
  }

  /** A power of two of at least 8 is a multiple of 8, so aligned pointers are word addresses. */
  lemma AlignedIsWordAligned(p: nat, align: nat)
    requires IsPow2(align) && p % EffectiveAlign(align) == 0
    ensures p % 8 == 0
  {
    var a := EffectiveAlign(align);
    if align > 8 {
      var k := Exponent(align);
      assert Pow2(3) == 8;
      if k < 3 { Pow2Monotone(k, 3); }
      Pow2Add(3, k - 3);
      MultipleOfMultiple(p, Pow2(k - 3), p / a);
    }
  }

  /** Rounding up to a multiple of 8. */
  lemma RoundToWord(x: nat)
    requires x + 7 < USIZE_LIMIT
    ensures AlignUp(x, 8) % 8 == 0 && x <= AlignUp(x, 8) < x + 8
  {
    EightIsPow2();
    AlignUpIsLeastMultiple(x, 8);
  }

  lemma MultipleOfMultiple(p: nat, r: nat, q: nat)
    requires p == q * (8 * r)
    ensures p % 8 == 0
  {
    assert q * (8 * r) == 8 * (q * r);
  }

  lemma TotalConsumedBounds(b: nat, size: nat, align: nat)
    requires Placeable(b, size, align) && b % 8 == 0
    ensures TotalConsumed(b, size, align) % 8 == 0
    ensures TotalConsumed(b, size, align) >= MIN_BLOCK_SIZE
    ensures UserPtr(b, size, align) + size <= b + TotalConsumed(b, size, align)
    ensures TotalConsumed(b, size, align) <= Needed(size, align)
    ensures TotalConsumed(b, size, align) == 32 || b + TotalConsumed(b, size, align) < UserPtr(b, size, align) + size + 8
  {
    hide AlignUp, IsPow2;
    PaddingBound(b, size, align);
    var used := HEADER_SIZE + (UserPtr(b, size, align) - (b + HEADER_SIZE)) + size;
    RoundToWord(used);
    RoundToWord(HEADER_SIZE + (EffectiveAlign(align) - HEADER_SIZE) + size);
  }

  lemma WordAligned(b: nat, size: nat, align: nat)
    requires Placeable(b, size, align)
    ensures UserPtr(b, size, align) % 8 == 0 && EffectiveAlign(align) % 8 == 0
  {
    hide AlignUp, IsPow2, UserPtr;
    UserPtrBounds(b, size, align);
    var a := EffectiveAlign(align);
    AlignedIsWordAligned(UserPtr(b, size, align), align);
    DivModUnique(a, a, 1, 0);
    AlignedIsWordAligned(a, align);
  }

  /** Padding between 8-aligned addresses is at most `align - 8`, so `needed` covers it. */
  /** The block size searched for is the alignment and the payload, rounded up to a word, and no more. */
  lemma NeededBounds(size: nat, align: nat)
    requires Requestable(size, align)
    ensures Needed(size, align) % 8 == 0 && Needed(size, align) >= 32
    ensures EffectiveAlign(align) + size <= Needed(size, align)
    ensures Needed(size, align) == 32 || Needed(size, align) < EffectiveAlign(align) + size + 8
  {
    hide AlignUp, IsPow2;
    RoundToWord(HEADER_SIZE + (EffectiveAlign(align) - HEADER_SIZE) + size);
  }

  /** So a block has room for it exactly when it has room for the alignment and the payload. */
  lemma NeededFits(size: nat, align: nat, n: nat)
    requires Requestable(size, align) && n % 8 == 0 && n >= 32
    ensures Needed(size, align) <= n <==> EffectiveAlign(align) + size <= n
  {
    hide Needed, Requestable;
    NeededBounds(size, align);
  }

  lemma PaddingBound(b: nat, size: nat, align: nat)
    requires Placeable(b, size, align) && b % 8 == 0
    ensures b + HEADER_SIZE <= UserPtr(b, size, align) <= b + EffectiveAlign(align)
  {
    hide UserPtr, EffectiveAlign, Placeable;
    UserPtrRange(b, size, align);
    WordAligned(b, size, align);
  }

  // ---------------------------------------------------------------- invariants of the chain

  ghost predicate Geometry(h: Heap) {
    && h.start % 8 == 0 && h.end % 8 == 0
    && h.start + MIN_BLOCK_SIZE <= h.end
    && h.end - h.start < 0x1_0000_0000
    && h.end + 16 <= USIZE_LIMIT
  }

  ghost predicate BlockOk(h: Heap, a: nat, b: Block) {
    && a % 8 == 0 && b.size % 8 == 0
    && MIN_BLOCK_SIZE <= b.size
    && h.start <= a && a + b.size <= h.end
    && (b.Used? ==> PayloadOk(a, b))
  }

  /** A used block holds its payload, aligned as requested, and wastes less than one minimal block. */
  ghost predicate PayloadOk(a: nat, b: Block)
    requires b.Used?
  {
    && Placeable(a, b.request, b.align)
    && b.ptr == UserPtr(a, b.request, b.align)
    && TotalConsumed(a, b.request, b.align) <= b.size < TotalConsumed(a, b.request, b.align) + MIN_BLOCK_SIZE
  }

  /** The address after block `a`. */
  ghost function After(h: Heap, a: nat): nat
    requires a in h.blocks
  {
    a + h.blocks[a].size
  }

  /** Block `a` is well formed and is followed by another block or the heap end. */
  ghost predicate BlockAt(h: Heap, a: nat)
    requires a in h.blocks
  {
    BlockOk(h, a, h.blocks[a]) && (After(h, a) == h.end || After(h, a) in h.blocks)
  }

  /** Blocks do not overlap. */
  ghost predicate Ordered(h: Heap, a: nat, b: nat)
    requires a in h.blocks && b in h.blocks
  {
    a < b ==> After(h, a) <= b
  }

  /** Blocks start at the heap start, each is followed by another block or the heap end, and none overlap. */
  ghost predicate Chain(h: Heap) {
    && h.start in h.blocks
    && (forall a {:trigger BlockAt(h, a)} :: a in h.blocks ==> BlockAt(h, a))
    && (forall a, b {:trigger Ordered(h, a, b)} :: a in h.blocks && b in h.blocks ==> Ordered(h, a, b))
  }

  ghost predicate IsFree(h: Heap, a: nat) {
    a in h.blocks && h.blocks[a].Free?
  }

  /** Coalescing is immediate: a free block is never followed by a free block. */
  ghost predicate NoAdjacentFree(h: Heap) {
    forall a {:trigger IsFree(h, a)} :: IsFree(h, a) ==> !IsFree(h, After(h, a))
  }

  /** The same, except that block `x` may have a free block before it. */
  ghost predicate NoAdjacentFreeExcept(h: Heap, x: nat) {
    forall a {:trigger IsFree(h, a)} :: IsFree(h, a) && After(h, a) != x ==> !IsFree(h, After(h, a))
  }

  ghost predicate Inv(h: Heap) {
    Geometry(h) && Chain(h) && NoAdjacentFree(h)
  }

  // ---------------------------------------------------------------- transitions

  ghost predicate IsInitial(h: Heap) {
    Geometry(h) && h.blocks == map[h.start := Free(h.end - h.start)]
  }

  /** Block `b` can serve the request. */
  ghost predicate CanAlloc(h: Heap, b: nat, size: nat, align: nat) {
    && b in h.blocks && h.blocks[b].Free?
    && Placeable(b, size, align)
    && TotalConsumed(b, size, align) <= h.blocks[b].size
  }

  /** Serve a request from block `b`, splitting off the remainder if it can stand as a block. */
  ghost function Alloc(h: Heap, b: nat, size: nat, align: nat): Heap
    requires CanAlloc(h, b, size, align)
  {
    var total := TotalConsumed(b, size, align);
    var whole := h.blocks[b].size;
    var ptr := UserPtr(b, size, align);
    if whole >= total + MIN_BLOCK_SIZE then
      h.(blocks := h.blocks[b := Used(total, ptr, size, align)][b + total := Free(whole - total)])
    else
      h.(blocks := h.blocks[b := Used(whole, ptr, size, align)])
  }

  /** `ptr` is live and its header is where `free` looks for it. */
  ghost predicate CanFree(h: Heap, ptr: nat) {
    && ptr >= HEADER_SIZE && ptr - HEADER_SIZE in h.blocks
    && h.blocks[ptr - HEADER_SIZE].Used?
    && h.blocks[ptr - HEADER_SIZE].ptr == ptr
  }

  /** The free block that ends where `a` starts. */
  ghost predicate FreeBefore(h: Heap, p: nat, a: nat) {
    IsFree(h, p) && After(h, p) == a
  }

  /** Absorb the block after `a` if it is free. */
  ghost function MergeNext(h: Heap, a: nat): Heap
    requires a in h.blocks
  {
    var size := h.blocks[a].size;
    var n := After(h, a);
    if IsFree(h, n) then
      h.(blocks := (h.blocks - {n})[a := Free(size + h.blocks[n].size)])
    else
      h.(blocks := h.blocks[a := Free(size)])
  }

  /** Fold `a` into the free block before it, if there is one. */
  ghost function MergePrev(h: Heap, a: nat): Heap
    requires a in h.blocks
  {
    if p :| FreeBefore(h, p, a) then
      h.(blocks := (h.blocks - {a})[p := Free(h.blocks[p].size + h.blocks[a].size)])
    else
      h
  }

  ghost function Release(h: Heap, ptr: nat): Heap
    requires CanFree(h, ptr)
  {
    MergePrev(MergeNext(h, ptr - HEADER_SIZE), ptr - HEADER_SIZE)
  }

  // ---------------------------------------------------------------- every transition keeps the invariant

  lemma InitialInv(h: Heap)
    requires IsInitial(h)
    ensures Inv(h)
  {
  }

  /** The block after a block starts strictly later and is a different block. */
  lemma Facts(h: Heap, a: nat)
    requires Chain(h) && a in h.blocks
    ensures BlockAt(h, a) && h.start <= a < After(h, a) <= h.end && a + MIN_BLOCK_SIZE <= After(h, a)
  {
    assert BlockAt(h, a);
  }

  lemma Disjoint(h: Heap, a: nat, b: nat)
    requires Chain(h) && a in h.blocks && b in h.blocks
    ensures Ordered(h, a, b) && Ordered(h, b, a)
  {
  }

  /** The two blocks an allocation leaves behind are well formed. */
  lemma AllocPieces(h: Heap, b: nat, size: nat, align: nat)
    requires Chain(h) && CanAlloc(h, b, size, align)
    ensures var total := TotalConsumed(b, size, align);
            var whole := h.blocks[b].size;
            var ptr := UserPtr(b, size, align);
            && MIN_BLOCK_SIZE <= total
            && (whole >= total + MIN_BLOCK_SIZE ==>
                  BlockOk(h, b, Used(total, ptr, size, align)) && BlockOk(h, b + total, Free(whole - total)))
            && (whole < total + MIN_BLOCK_SIZE ==> BlockOk(h, b, Used(whole, ptr, size, align)))
  {
    hide TotalConsumed, UserPtr, AlignUp;
    assert BlockAt(h, b);
    TotalConsumedBounds(b, size, align);
  }

  lemma AllocBlockAt(h: Heap, b: nat, size: nat, align: nat, x: nat)
    requires Chain(h) && CanAlloc(h, b, size, align)
    requires x in Alloc(h, b, size, align).blocks
    ensures BlockAt(Alloc(h, b, size, align), x)
  {
    hide TotalConsumed, UserPtr, PayloadOk;
    AllocPieces(h, b, size, align);
    assert BlockAt(h, b);
    if x in h.blocks { assert BlockAt(h, x); }
  }

  lemma AllocOrdered(h: Heap, b: nat, size: nat, align: nat, x: nat, y: nat)
    requires Chain(h) && CanAlloc(h, b, size, align)
    requires x in Alloc(h, b, size, align).blocks && y in Alloc(h, b, size, align).blocks
    ensures Ordered(Alloc(h, b, size, align), x, y)
  {
    hide TotalConsumed, UserPtr, PayloadOk;
    AllocPieces(h, b, size, align);
    Facts(h, b);
    if x in h.blocks { Facts(h, x); assert Ordered(h, x, b); assert Ordered(h, b, x); }
    if y in h.blocks { Facts(h, y); assert Ordered(h, b, y); assert Ordered(h, y, b); }
    if x in h.blocks && y in h.blocks { assert Ordered(h, x, y); }
  }

  lemma AllocNoAdjacentFree(h: Heap, b: nat, size: nat, align: nat, x: nat)
    requires Inv(h) && CanAlloc(h, b, size, align)
    requires IsFree(Alloc(h, b, size, align), x)
    ensures !IsFree(Alloc(h, b, size, align), After(Alloc(h, b, size, align), x))
  {
    hide TotalConsumed, UserPtr, PayloadOk;
    AllocPieces(h, b, size, align);
    Facts(h, b);
    assert IsFree(h, b);
    if x in h.blocks {
      Facts(h, x);
      assert Ordered(h, x, b) && Ordered(h, b, x);
      assert IsFree(h, x);
    }
  }

  /** `malloc` keeps the chain: exact tiling, minimal sizes, and no two adjacent free blocks. */
  lemma AllocKeepsInv(h: Heap, b: nat, size: nat, align: nat)
    requires Inv(h) && CanAlloc(h, b, size, align)
    ensures Inv(Alloc(h, b, size, align))
  {
    hide TotalConsumed, UserPtr, PayloadOk, BlockAt, Ordered;
    var h' := Alloc(h, b, size, align);
    forall x | x in h'.blocks ensures BlockAt(h', x) { AllocBlockAt(h, b, size, align, x); }
    forall x, y | x in h'.blocks && y in h'.blocks ensures Ordered(h', x, y) {
      AllocOrdered(h, b, size, align, x, y);
    }
    forall x | IsFree(h', x) ensures !IsFree(h', After(h', x)) {
      AllocNoAdjacentFree(h, b, size, align, x);
    }
  }

  lemma MergeNextChain(h: Heap, a: nat)
    requires Geometry(h) && Chain(h) && a in h.blocks
    ensures Geometry(MergeNext(h, a)) && Chain(MergeNext(h, a))
  {
    hide PayloadOk;
    var h' := MergeNext(h, a);
    var n := After(h, a);
    Facts(h, a);
    if n in h.blocks { Facts(h, n); }
    forall x | x in h'.blocks ensures BlockAt(h', x) {
      Facts(h, x);
      assert Ordered(h, x, a) && Ordered(h, a, x);
    }
    forall x, y | x in h'.blocks && y in h'.blocks ensures Ordered(h', x, y) {
      MergeNextOrdered(h, a, x, y);
    }
  }

  lemma MergeNextOrdered(h: Heap, a: nat, x: nat, y: nat)
    requires Chain(h) && a in h.blocks && x in MergeNext(h, a).blocks && y in MergeNext(h, a).blocks
    ensures Ordered(MergeNext(h, a), x, y)
  {
    hide PayloadOk;
    var n := After(h, a);
    Facts(h, a);
    if n in h.blocks { Facts(h, n); assert Ordered(h, n, y); }
    assert Ordered(h, x, y) && Ordered(h, a, y);
  }

  lemma MergeNextOk(h: Heap, a: nat)
    requires Inv(h) && a in h.blocks && h.blocks[a].Used?
    ensures var h' := MergeNext(h, a);
            Geometry(h') && Chain(h') && NoAdjacentFreeExcept(h', a) && IsFree(h', a)
  {
    hide PayloadOk, Chain;
    var h' := MergeNext(h, a);
    var n := After(h, a);
    MergeNextChain(h, a);
    Facts(h, a);
    if n in h.blocks { Facts(h, n); }
    forall x | IsFree(h', x) && After(h', x) != a ensures !IsFree(h', After(h', x)) {
      if x == a {
        assert IsFree(h, n) ==> !IsFree(h, After(h, n));
      } else {
        assert IsFree(h, x);
        assert !IsFree(h, After(h, x));
      }
    }
  }

  lemma MergePrevChain(h: Heap, a: nat, p: nat)
    requires Geometry(h) && Chain(h) && a in h.blocks && FreeBefore(h, p, a)
    requires h.blocks[a].Free?
    ensures var h' := h.(blocks := (h.blocks - {a})[p := Free(h.blocks[p].size + h.blocks[a].size)]);
            Geometry(h') && Chain(h')
  {
    assert MergeNext(h, p) == h.(blocks := (h.blocks - {a})[p := Free(h.blocks[p].size + h.blocks[a].size)]);
    MergeNextChain(h, p);
  }

  lemma MergePrevOk(h: Heap, a: nat)
    requires Geometry(h) && Chain(h) && NoAdjacentFreeExcept(h, a) && IsFree(h, a)
    ensures Inv(MergePrev(h, a))
  {
    hide PayloadOk, Chain;
    var h' := MergePrev(h, a);
    Facts(h, a);
    if p :| FreeBefore(h, p, a) && h' == h.(blocks := (h.blocks - {a})[p := Free(h.blocks[p].size + h.blocks[a].size)]) {
      MergePrevChain(h, a, p);
      Facts(h, p);
      forall x | IsFree(h', x) ensures !IsFree(h', After(h', x)) {
        if x == p {
          assert !IsFree(h, After(h, a));
        } else {
          assert IsFree(h, x);
          Facts(h, x);
        }
      }
    } else {
      assert forall p :: !FreeBefore(h, p, a);
      forall x | IsFree(h', x) ensures !IsFree(h', After(h', x)) {
        assert IsFree(h, x);
        assert !FreeBefore(h, x, a);
      }
    }
  }

  /** `free` keeps the chain, whatever the neighbours are. */
  lemma ReleaseKeepsInv(h: Heap, ptr: nat)
    requires Inv(h) && CanFree(h, ptr)
    ensures Inv(Release(h, ptr))
  {
    hide Inv, Chain, IsFree, MergeNext, MergePrev, NoAdjacentFreeExcept;
    MergeNextOk(h, ptr - HEADER_SIZE);
    MergePrevOk(MergeNext(h, ptr - HEADER_SIZE), ptr - HEADER_SIZE);
  }

  // ---------------------------------------------------------------- what the invariant means

  lemma {:induction false} FindCovering(h: Heap, a: nat, x: nat) returns (b: nat)
    requires Chain(h) && a in h.blocks && a <= x < h.end
    ensures b in h.blocks && b <= x < After(h, b)
    decreases x - a
  {
    Facts(h, a);
    if x < After(h, a) {
      b := a;
    } else {
      b := FindCovering(h, After(h, a), x);
    }
  }

  /** The blocks tile the heap: every address lies in exactly one block. */
  lemma BlocksTile(h: Heap, x: nat)
    requires Chain(h) && h.start <= x < h.end
    ensures exists b :: b in h.blocks && b <= x < After(h, b)
    ensures forall b, c :: b in h.blocks && c in h.blocks && b <= x < After(h, b) && c <= x < After(h, c) ==> b == c
  {
    var b := FindCovering(h, h.start, x);
    forall b, c | b in h.blocks && c in h.blocks && b <= x < After(h, b) && c <= x < After(h, c)
      ensures b == c
    {
      assert Ordered(h, b, c) && Ordered(h, c, b);
    }
  }

  /** Each live payload is aligned as requested and lies inside its own block, behind the header. */
  lemma PayloadInsideBlock(h: Heap, a: nat)
    requires Chain(h) && a in h.blocks && h.blocks[a].Used?
    ensures var u := h.blocks[a];
            && u.align > 0 && u.ptr % u.align == 0 && u.ptr % 8 == 0
            && a + HEADER_SIZE <= u.ptr && u.ptr + u.request <= After(h, a)
  {
    hide UserPtr, TotalConsumed, AlignUp;
    assert BlockAt(h, a);
    var u := h.blocks[a];
    TotalConsumedBounds(a, u.request, u.align);
    UserPtrBounds(a, u.request, u.align);
    WordAligned(a, u.request, u.align);
    RequestedAlignment(u.ptr, u.align);
  }

  lemma SmallPow2(align: nat)
    requires IsPow2(align) && align < 8
    ensures align == 1 || align == 2 || align == 4
  {
    assert align == 1 || align / 2 == 1 || align / 2 / 2 == 1;
  }

  lemma RequestedAlignment(p: nat, align: nat)
    requires IsPow2(align) && p % EffectiveAlign(align) == 0
    ensures align > 0 && p % align == 0
  {
    assert align > 0;
    hide IsPow2;
    if align < 8 {
      SmallPow2(align);
      assert p % 1 == 0 && p % 2 == 0 && p % 4 == 0;
    }
  }

  /** Live payloads never share a byte. */
  lemma PayloadsDisjoint(h: Heap, a: nat, b: nat)
    requires Chain(h) && a in h.blocks && b in h.blocks && a != b
    requires h.blocks[a].Used? && h.blocks[b].Used?
    ensures var u, v := h.blocks[a], h.blocks[b];
            u.ptr + u.request <= v.ptr || v.ptr + v.request <= u.ptr
  {
    PayloadInsideBlock(h, a);
    PayloadInsideBlock(h, b);
    assert Ordered(h, a, b) && Ordered(h, b, a);
  }

  /** Full coalescing: with nothing live, the heap is the single block it started as. */
  lemma NothingLiveIsInitial(h: Heap)
    requires Inv(h) && forall a :: a in h.blocks ==> h.blocks[a].Free?
    ensures IsInitial(h)
  {
    Facts(h, h.start);
    assert IsFree(h, h.start);
    var n := After(h, h.start);
    assert n == h.end;
    forall a | a in h.blocks ensures a == h.start {
      Facts(h, a);
      assert Ordered(h, h.start, a);
    }
    assert h.blocks == map[h.start := Free(h.end - h.start)];
  }

  /** `malloc` touches no live block. */
  lemma AllocKeepsLive(h: Heap, b: nat, size: nat, align: nat, x: nat)
    requires Inv(h) && CanAlloc(h, b, size, align)
    requires x in h.blocks && h.blocks[x].Used?
    ensures x in Alloc(h, b, size, align).blocks && Alloc(h, b, size, align).blocks[x] == h.blocks[x]
  {
    hide TotalConsumed, UserPtr, PayloadOk;
    AllocPieces(h, b, size, align);
    assert Ordered(h, b, x) && Ordered(h, x, b);
    Facts(h, b);
  }

  /** `free` touches no live block but the one it frees. */
  lemma ReleaseKeepsLive(h: Heap, ptr: nat, x: nat)
    requires Inv(h) && CanFree(h, ptr)
    requires x in h.blocks && h.blocks[x].Used? && h.blocks[x].ptr != ptr
    ensures x in Release(h, ptr).blocks && Release(h, ptr).blocks[x] == h.blocks[x]
  {
  }

  /** `free` undoes `malloc`: freeing an unpadded allocation at once restores the heap exactly. */
  lemma ReleaseUndoesAlloc(h: Heap, b: nat, size: nat, align: nat)
    requires Inv(h) && CanAlloc(h, b, size, align)
    requires (b + HEADER_SIZE) % EffectiveAlign(align) == 0
    ensures var h' := Alloc(h, b, size, align);
            var ptr := UserPtr(b, size, align);
            ptr == b + HEADER_SIZE && CanFree(h', ptr) && Release(h', ptr) == h
  {
    hide TotalConsumed, UserPtr, AlignUp;
    UserPtrBounds(b, size, align);
    AllocPieces(h, b, size, align);
    var h' := Alloc(h, b, size, align);
    Facts(h, b);
    assert IsFree(h, b);
    var h1 := MergeNext(h', b);
    assert h1.blocks == h.blocks by {
      var n := After(h', b);
      if n != After(h, b) {
        assert n in h.blocks ==> Ordered(h, b, n);
      } else {
        assert !IsFree(h, n);
      }
    }
    forall p ensures !FreeBefore(h, p, b) {
      if IsFree(h, p) { Facts(h, p); }
    }
  }

  /** The header is where `free` looks for it exactly when no front padding was needed. */
  lemma FreeableIffUnpadded(h: Heap, b: nat, size: nat, align: nat)
    requires Inv(h) && CanAlloc(h, b, size, align)
    ensures var h' := Alloc(h, b, size, align);
            CanFree(h', UserPtr(b, size, align)) <==> (b + HEADER_SIZE) % EffectiveAlign(align) == 0
  {
    hide TotalConsumed, UserPtr, AlignUp;
    var h' := Alloc(h, b, size, align);
    var ptr := UserPtr(b, size, align);
    UserPtrBounds(b, size, align);
    AllocKeepsInv(h, b, size, align);
    AllocPieces(h, b, size, align);
    if ptr == b + HEADER_SIZE {
    } else {
      PayloadInsideBlock(h', b);
      if ptr - HEADER_SIZE in h'.blocks { Disjoint(h', b, ptr - HEADER_SIZE); }
    }
  }

  /** A request aligned to at most 8 bytes never needs padding, so whichever block serves it, its pointer
      can be freed. */
  lemma SmallAlignFreeable(h: Heap, b: nat, size: nat, align: nat)
    requires Inv(h) && CanAlloc(h, b, size, align) && align <= 8
    ensures CanFree(Alloc(h, b, size, align), UserPtr(b, size, align))
  {
    hide TotalConsumed, UserPtr, AlignUp, Alloc, CanFree;
    Facts(h, b);
    FreeableIffUnpadded(h, b, size, align);
  }

  /** Every `Layout` is a request `malloc` accepts: its size rounded up to its alignment fits an `isize`. */
  lemma LayoutIsRequestable(size: nat, align: nat)
    requires IsPow2(align) && size + align <= USIZE_LIMIT / 2
    ensures Requestable(size, align)
  {
  }

  /** The kernel's heap as `init` leaves it: 1 MiB at 0x4444_4444_0000. */
  function KernelHeap(): Heap {
    Heap(0x4444_4444_0000, 0x4444_4454_0000, map[0x4444_4444_0000 := Free(0x10_0000)])
  }

  lemma SixteenByteRequest()
    ensures Placeable(KernelHeap().start, 100, 16) && Needed(100, 16) <= 200
  {
    assert IsPow2(2) && IsPow2(4) && IsPow2(8);
    hide AlignUp;
    RoundToWord(116);
  }

  /** On the kernel's heap the first 16-aligned allocation already hides its header from `free`. */
  lemma PaddedPointerWitness()
    ensures var h := KernelHeap();
            && IsInitial(h) && CanAlloc(h, h.start, 100, 16)
            && !CanFree(Alloc(h, h.start, 100, 16), UserPtr(h.start, 100, 16))
  {
    hide UserPtr, TotalConsumed, Needed, Inv, CanFree, Alloc, IsPow2;
    var h := KernelHeap();
    InitialInv(h);
    SixteenByteRequest();
    TotalConsumedBounds(h.start, 100, 16);
    FreeableIffUnpadded(h, h.start, 100, 16);
  }

  // ---------------------------------------------------------------- runs

  /** One call of the allocator: a failed `malloc`, a `malloc` served by some block, or a valid `free`. */
  ghost predicate Step(h: Heap, h': Heap) {
    || h' == h
    || (exists b, size, align :: CanAlloc(h, b, size, align) && h' == Alloc(h, b, size, align))
    || (exists ptr :: CanFree(h, ptr) && h' == Release(h, ptr))
  }

  ghost predicate IsRun(run: seq<Heap>) {
    && |run| > 0 && IsInitial(run[0])
    && forall i: nat :: i + 1 < |run| ==> Step(run[i], run[i + 1])
  }

  lemma StepKeepsInv(h: Heap, h': Heap)
    requires Inv(h) && Step(h, h')
    ensures Inv(h') && h'.start == h.start && h'.end == h.end
  {
    hide Inv, CanAlloc, CanFree, Alloc, Release;
    if h' == h {
    } else if b, size, align :| CanAlloc(h, b, size, align) && h' == Alloc(h, b, size, align) {
      AllocKeepsInv(h, b, size, align);
      AllocSameBounds(h, b, size, align);
    } else {
      var ptr :| CanFree(h, ptr) && h' == Release(h, ptr);
      ReleaseKeepsInv(h, ptr);
      ReleaseSameBounds(h, ptr);
    }
  }

  lemma AllocSameBounds(h: Heap, b: nat, size: nat, align: nat)
    requires CanAlloc(h, b, size, align)
    ensures Alloc(h, b, size, align).start == h.start && Alloc(h, b, size, align).end == h.end
  {
  }

  lemma ReleaseSameBounds(h: Heap, ptr: nat)
    requires CanFree(h, ptr)
    ensures Release(h, ptr).start == h.start && Release(h, ptr).end == h.end
  {
  }

  /** Safety over whole runs: every state of every run satisfies the chain invariant. */
  lemma {:induction false} RunKeepsInv(run: seq<Heap>, i: nat)
    requires IsRun(run) && i < |run|
    ensures Inv(run[i]) && run[i].start == run[0].start && run[i].end == run[0].end
  {
    if i == 0 {
      InitialInv(run[0]);
    } else {
      RunKeepsInv(run, i - 1);
      assert Step(run[i - 1], run[i - 1 + 1]);
      StepKeepsInv(run[i - 1], run[i]);
    }
  }

  /** Any run that ends with nothing live ends in the heap it started from. */
  lemma RunCoalescesFully(run: seq<Heap>)
    requires IsRun(run)
    requires var last := run[|run| - 1]; forall a :: a in last.blocks ==> last.blocks[a].Free?
    ensures run[|run| - 1] == run[0]
  {
    RunKeepsInv(run, |run| - 1);
    NothingLiveIsInitial(run[|run| - 1]);
  }
}
