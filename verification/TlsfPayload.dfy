/** What the allocator's memory writes leave alone, and the step from a popped block to a served one. */
module TlsfPayload {
  import opened TlsfMapping
  import opened Options
  import opened TlsfMemory
  import opened TlsfHeap
  import opened TlsfIndex
  import opened TlsfHeaders

  /** `w` lies in the used block at `a`, behind its header. */
  ghost predicate InPayload(h: Heap, a: nat, w: nat) {
    a in h.blocks && h.blocks[a].Used? && a + HEADER_SIZE <= w < After(h, a)
  }

  ghost predicate SameWord(mem: Memory, mem': Memory, w: nat) {
    (w in mem <==> w in mem') && (w in mem ==> mem'[w] == mem[w])
  }

  /** No word of a live payload changed, except possibly in the block at `freed`. */
  ghost predicate PayloadsKept(h: Heap, freed: set<nat>, mem: Memory, mem': Memory) {
    forall a: nat, w: nat {:trigger InPayload(h, a, w)} ::
      InPayload(h, a, w) && a !in freed ==> SameWord(mem, mem', w)
  }

  lemma PayloadIsPrivate(h: Heap, a: nat, w: nat)
    requires Chain(h) && InPayload(h, a, w)
    ensures !IsTag(h, w)
    ensures forall x :: x in h.blocks && x != a ==> !(x <= w < After(h, x))
  {
    Facts(h, a);
    if w in h.blocks { Disjoint(h, a, w); }
    forall x | x in h.blocks && x != a ensures !(x <= w < After(h, x)) {
      Disjoint(h, a, x);
    }
  }

  lemma NodeWordsAreInside(h: Heap, s: set<nat>, w: nat)
    requires Chain(h) && IsNodeWord(s, w) && forall x :: x in s ==> x in h.blocks
    ensures exists x :: x in s && x in h.blocks && x <= w < After(h, x)
  {
    if w >= 8 && w - 8 in s {
      Facts(h, w - 8);
    } else {
      Facts(h, w - 16);
    }
  }

  /** Writes to tags and to words of free blocks keep every live payload. */
  lemma FreeWritesKeepPayloads(h: Heap, mem: Memory, mem': Memory, s: set<nat>)
    requires Chain(h) && forall x :: x in s ==> IsFree(h, x)
    requires forall w: nat :: !IsTag(h, w) && !InBlocks(h, s, w) ==> SameWord(mem, mem', w)
    ensures PayloadsKept(h, {}, mem, mem')
  {
    forall a: nat, w: nat | InPayload(h, a, w) ensures SameWord(mem, mem', w) {
      PayloadIsPrivate(h, a, w);
    }
  }

  ghost predicate InBlocks(h: Heap, s: set<nat>, w: nat) {
    exists x :: x in s && x in h.blocks && x <= w < After(h, x)
  }

  /** The state between `find_block` and `alloc_from`: `block` is free but no longer filed. */
  ghost predicate Popped(mem: Memory, idx: Index, lists: Lists, filed: Filed, h: Heap, block: nat) {
    && Inv(h) && HeadersOk(mem, h) && IndexOk(mem, idx, lists, filed)
    && IsFree(h, block) && h.blocks[block].size > 0 && block !in filed
    && FilesFreeBlocks(filed[block := Mapping(h.blocks[block].size)], h)
  }

  lemma PoppedFacts(mem: Memory, idx: Index, lists: Lists, filed: Filed, h: Heap, block: nat, x: nat)
    requires Popped(mem, idx, lists, filed, h, block) && x in filed
    ensures IsFree(h, x) && x != block && Apart(block, x)
    ensures After(h, x) <= block || After(h, block) <= x
  {
    hide Mapping, HeadersOk, IndexOk, Chain;
    assert FiledAt(filed[block := Mapping(h.blocks[block].size)], h, x);
    BlocksApart(h, block, x);
    Disjoint(h, block, x);
    Facts(h, x);
    Facts(h, block);
  }

  /** Writes that miss the node words of filed blocks, seen from a popped state. */
  lemma PoppedFrame(mem: Memory, mem': Memory, idx: Index, lists: Lists, filed: Filed, h: Heap, block: nat)
    requires Popped(mem, idx, lists, filed, h, block)
    requires forall w: nat :: !IsTag(h, w) && !(block <= w < After(h, block)) ==> SameWord(mem, mem', w)
    ensures IndexOk(mem', idx, lists, filed)
  {
    hide Mapping, HeadersOk, IndexOk, Chain, FilesFreeBlocks;
    forall x | x in filed ensures SameNode(mem, mem', x) {
      PoppedFacts(mem, idx, lists, filed, h, block, x);
      Facts(h, x);
      NodeWordNotTag(h, x);
      assert SameWord(mem, mem', x + 8) && SameWord(mem, mem', x + 16);
    }
    IndexFrame(mem, mem', idx, lists, filed);
  }

  lemma NodeWordNotTag(h: Heap, x: nat)
    requires Chain(h) && x in h.blocks
    ensures !IsTag(h, x + 8) && !IsTag(h, x + 16)
  {
    Facts(h, x);
    if x + 8 in h.blocks { Disjoint(h, x, x + 8); }
    if x + 16 in h.blocks { Disjoint(h, x, x + 16); }
  }

  /** The header writes of `alloc_from` when the block is taken whole. */
  lemma TakeWhole(mem: Memory, mem': Memory, idx: Index, lists: Lists, filed: Filed, h: Heap,
                  b: nat, size: nat, align: nat)
    requires Popped(mem, idx, lists, filed, h, b) && CanAlloc(h, b, size, align)
    requires h.blocks[b].size < TotalConsumed(b, size, align) + MIN_BLOCK_SIZE
    requires HasHeader(mem, b) && HasHeader(mem, After(h, b)) && b != After(h, b)
    requires mem' == mem[b := HeaderWord(mem[b].header.(free := false))]
                     [After(h, b) := HeaderWord(mem[After(h, b)].header.(prevFree := false))]
    ensures var h' := Alloc(h, b, size, align);
            Inv(h') && HeadersOk(mem', h') && IndexOk(mem', idx, lists, filed) && FilesFreeBlocks(filed, h')
    ensures PayloadsKept(h, {}, mem, mem')
  {
    hide Mapping, HeadersOk, IndexOk, Chain, TotalConsumed, UserPtr, PayloadOk, NoAdjacentFree;
    var h' := Alloc(h, b, size, align);
    AllocKeepsInv(h, b, size, align);
    Facts(h, b);
    TakenHeaders(mem, mem', h, b, h'.blocks[b]);
    PoppedFrame(mem, mem', idx, lists, filed, h, b);
    forall a: nat ensures FiledAt(filed, h', a) {
      assert FiledAt(filed[b := Mapping(h.blocks[b].size)], h, a);
    }
    FreeWritesKeepPayloads(h, mem, mem', {b});
  }

  /** The header writes of `alloc_from` when the remainder is split off, ready for `insert`. */
  lemma SplitFront(mem: Memory, mem': Memory, idx: Index, lists: Lists, filed: Filed, h: Heap,
                   b: nat, size: nat, align: nat)
    requires Popped(mem, idx, lists, filed, h, b) && CanAlloc(h, b, size, align)
    requires h.blocks[b].size >= TotalConsumed(b, size, align) + MIN_BLOCK_SIZE
    requires HasHeader(mem, b) && HasHeader(mem, After(h, b))
    requires var total := TotalConsumed(b, size, align);
             var n := After(h, b);
             mem' == mem[b := HeaderWord(mem[b].header.(size := total, free := false))]
                     [b + total := HeaderWord(Header(total, n - (b + total), true, false))]
                     [n := HeaderWord(mem[n].header.(prevPhysSize := n - (b + total), prevFree := true))]
    ensures var h' := Alloc(h, b, size, align);
            var r := b + TotalConsumed(b, size, align);
            && Inv(h') && HeadersOk(mem', h') && IndexOk(mem', idx, lists, filed)
            && r !in filed && (forall y :: y in filed ==> Apart(r, y) && IsFree(h', y))
            && r in h'.blocks && h'.blocks[r].size > 0
            && FilesFreeBlocks(filed[r := Mapping(h'.blocks[r].size)], h')
  {
    hide Mapping, HeadersOk, IndexOk, Chain, TotalConsumed, UserPtr, PayloadOk, NoAdjacentFree, BlockOk;
    var h' := Alloc(h, b, size, align);
    var total := TotalConsumed(b, size, align);
    var r := b + total;
    AllocKeepsInv(h, b, size, align);
    AllocPieces(h, b, size, align);
    Facts(h, b);
    if r in h.blocks { Disjoint(h, b, r); assert false; }
    assert !IsTag(h, r);
    SplitHeaders(mem, mem', h, b, h'.blocks[b]);
    PoppedFrame(mem, mem', idx, lists, filed, h, b);
    forall y | y in filed ensures Apart(r, y) && IsFree(h', y) {
      PoppedFacts(mem, idx, lists, filed, h, b, y);
      Facts(h, y);
    }
    var filed' := filed[r := Mapping(h'.blocks[r].size)];
    forall a: nat ensures FiledAt(filed', h', a) {
      assert FiledAt(filed[b := Mapping(h.blocks[b].size)], h, a);
    }
  }

  /** After the split, `insert` of the remainder still writes only inside the popped block and free blocks. */
  lemma SplitKeepsPayloads(mem: Memory, mem1: Memory, mem2: Memory, idx: Index, lists: Lists, filed: Filed,
                           h: Heap, b: nat, total: nat)
    requires Popped(mem, idx, lists, filed, h, b)
    requires total % 8 == 0 && total + MIN_BLOCK_SIZE <= h.blocks[b].size
    requires forall w: nat :: !IsTag(h, w) && w != b + total ==> SameWord(mem, mem1, w)
    requires OnlyNodesDiffer(mem1, mem2, filed.Keys + {b + total})
    ensures PayloadsKept(h, {}, mem, mem2)
  {
    hide Mapping, HeadersOk, IndexOk, Chain, NoAdjacentFree;
    var s := filed.Keys + {b};
    forall x | x in s ensures IsFree(h, x) {
      if x != b { PoppedFacts(mem, idx, lists, filed, h, b, x); }
    }
    forall w: nat | !IsTag(h, w) && !InBlocks(h, s, w) ensures SameWord(mem, mem2, w) {
      assert b in s && !(b <= w < After(h, b));
      assert SameWord(mem, mem1, w);
      if IsNodeWord(filed.Keys + {b + total}, w) {
        if IsNodeWord(filed.Keys, w) { NodeWordsAreInside(h, filed.Keys, w); }
      }
    }
    FreeWritesKeepPayloads(h, mem, mem2, s);
  }

  /** Unfiling a block leaves a popped state, with every live payload as it was. */
  lemma PopReady(mem: Memory, mem': Memory, idx': Index, lists': Lists, filed: Filed, filed': Filed, h: Heap, b: nat)
    requires Inv(h) && HeadersOk(mem, h) && FilesFreeBlocks(filed, h)
    requires b in filed && filed' == filed - {b}
    requires IndexOk(mem', idx', lists', filed') && OnlyNodesDiffer(mem, mem', filed.Keys)
    ensures Popped(mem', idx', lists', filed', h, b)
    ensures PayloadsKept(h, {}, mem, mem')
  {
    hide Mapping, HeadersOk, IndexOk, Chain, NoAdjacentFree;
    forall x | x in filed.Keys ensures IsFree(h, x) { assert FiledAt(filed, h, x); }
    HeadersSurviveNodes(mem, mem', h, filed.Keys);
    assert FiledAt(filed, h, b);
    assert filed'[b := Mapping(h.blocks[b].size)] == filed;
    forall w: nat | !IsTag(h, w) && !InBlocks(h, filed.Keys, w) ensures SameWord(mem, mem', w) {
      if IsNodeWord(filed.Keys, w) { NodeWordsAreInside(h, filed.Keys, w); }
    }
    FreeWritesKeepPayloads(h, mem, mem', filed.Keys);
  }

  lemma PayloadsKeptTransitive(h: Heap, mem0: Memory, mem1: Memory, mem2: Memory)
    requires PayloadsKept(h, {}, mem0, mem1) && PayloadsKept(h, {}, mem1, mem2)
    ensures PayloadsKept(h, {}, mem0, mem2)
  {
  }

  /** A valid index records the sizes that `find_block` reads. */
  lemma SizesAreFiled(mem: Memory, filed: Filed, h: Heap)
    requires Chain(h) && HeadersOk(mem, h) && FilesFreeBlocks(filed, h)
    ensures SizesFiled(mem, filed)
  {
    hide Mapping, Chain;
    forall x | x in filed ensures SizedAt(mem, filed, x) {
      assert FiledAt(filed, h, x);
      Facts(h, x);
      assert HeaderAt(mem, h, x);
    }
  }

  lemma PoppedHeaders(mem: Memory, idx: Index, lists: Lists, filed: Filed, h: Heap, b: nat)
    requires Popped(mem, idx, lists, filed, h, b)
    ensures HasHeader(mem, b) && mem[b].header.size == h.blocks[b].size && mem[b].header.free
    ensures HasHeader(mem, After(h, b)) && b < After(h, b)
    ensures IsTag(h, b) && IsTag(h, After(h, b))
    ensures b % 8 == 0
  {
    hide Mapping, IndexOk, Chain;
    Facts(h, b);
    assert HeaderAt(mem, h, b);
    if After(h, b) in h.blocks { assert HeaderAt(mem, h, After(h, b)); }
  }

  /** Filing the popped block again restores a valid state. */
  lemma RefileReady(mem: Memory, mem': Memory, idx: Index, lists: Lists, filed: Filed, h: Heap, b: nat)
    requires Popped(mem, idx, lists, filed, h, b)
    requires OnlyNodesDiffer(mem, mem', filed.Keys + {b})
    ensures HeadersOk(mem', h) && PayloadsKept(h, {}, mem, mem')
  {
    hide Mapping, HeadersOk, IndexOk, Chain, NoAdjacentFree;
    var s := filed.Keys + {b};
    forall x | x in s ensures IsFree(h, x) {
      if x != b { PoppedFacts(mem, idx, lists, filed, h, b, x); }
    }
    HeadersSurviveNodes(mem, mem', h, s);
    forall w: nat | !IsTag(h, w) && !InBlocks(h, s, w) ensures SameWord(mem, mem', w) {
      if IsNodeWord(s, w) { NodeWordsAreInside(h, s, w); }
    }
    FreeWritesKeepPayloads(h, mem, mem', s);
  }

  /** After `insert` has filed the remainder, the split heap is complete. */
  lemma SplitDone(mem: Memory, mem1: Memory, mem2: Memory, idx: Index, lists: Lists, filed: Filed, h: Heap,
                  b: nat, size: nat, align: nat)
    requires Popped(mem, idx, lists, filed, h, b) && CanAlloc(h, b, size, align)
    requires var total := TotalConsumed(b, size, align);
             && total + MIN_BLOCK_SIZE <= h.blocks[b].size
             && (forall w: nat :: !IsTag(h, w) && w != b + total ==> SameWord(mem, mem1, w))
             && OnlyNodesDiffer(mem1, mem2, filed.Keys + {b + total})
    requires HeadersOk(mem1, Alloc(h, b, size, align))
    requires forall y :: y in filed ==> IsFree(Alloc(h, b, size, align), y)
    ensures HeadersOk(mem2, Alloc(h, b, size, align))
    ensures PayloadsKept(h, {}, mem, mem2)
  {
    hide Mapping, HeadersOk, IndexOk, Chain, NoAdjacentFree, TotalConsumed, UserPtr;
    var total := TotalConsumed(b, size, align);
    var h' := Alloc(h, b, size, align);
    AllocKeepsInv(h, b, size, align);
    Facts(h, b);
    TotalConsumedBounds(b, size, align);
    HeadersSurviveNodes(mem1, mem2, h', filed.Keys + {b + total});
    SplitKeepsPayloads(mem, mem1, mem2, idx, lists, filed, h, b, total);
  }

  // ---------------------------------------------------------------- when malloc finds nothing

  /** The list of bucket `c` starts with a block smaller than `needed`, or is empty. */
  ghost predicate HeadBelow(h: Heap, heads: seq<seq<Option<nat>>>, c: Bucket, needed: nat) {
    && c.fl < |heads| && c.sl < |heads[c.fl]|
    && match heads[c.fl][c.sl] {
         case None => true
         case Some(y) => y in h.blocks && h.blocks[y].size < needed
       }
  }

  /** A block of at least `needed` bytes that the search passes over: it shares the first level of
      `needed`, and is filed in an earlier bucket or in a list whose head is too small. */
  ghost predicate PassedOver(h: Heap, heads: seq<seq<Option<nat>>>, x: nat, needed: nat)
    requires x in h.blocks
  {
    && h.blocks[x].size > 0 && needed > 0
    && var c, m := Mapping(h.blocks[x].size), Mapping(needed);
       c.fl == m.fl && (c.sl < m.sl || HeadBelow(h, heads, c, needed))
  }

  ghost predicate Exhausted(h: Heap, heads: seq<seq<Option<nat>>>, needed: nat) {
    forall x {:trigger IsFree(h, x)} ::
      IsFree(h, x) && h.blocks[x].size >= needed ==> PassedOver(h, heads, x, needed)
  }

  lemma NothingFitsAt(mem: Memory, idx: Index, lists: Lists, filed: Filed, h: Heap, needed: nat, x: nat)
    requires Chain(h) && HeadersOk(mem, h) && IndexOk(mem, idx, lists, filed) && FilesFreeBlocks(filed, h)
    requires needed > 0 && x in filed
    ensures HasHeader(mem, x) && SizedAt(mem, filed, x)
    ensures IsFree(h, x) && mem[x].header.size == h.blocks[x].size
    ensures filed[x].InRange()
    ensures HeadTooSmall(mem, idx, filed[x], needed) <==> HeadBelow(h, idx.heads, filed[x], needed)
    ensures PassedOver(h, idx.heads, x, needed) <==>
            (filed[x].fl == Mapping(needed).fl
             && (filed[x].sl < Mapping(needed).sl || HeadTooSmall(mem, idx, filed[x], needed)))
  {
    hide Mapping, Chain, BucketOk, FirstLevelOk;
    assert FiledAt(filed, h, x);
    Facts(h, x);
    assert HeaderAt(mem, h, x);
    HeadOfBucket(mem, idx, lists, filed, filed[x]);
    var head := idx.heads[filed[x].fl][filed[x].sl];
    if head.Some? {
      assert FiledAt(filed, h, head.value);
      assert HeaderAt(mem, h, head.value);
    }
  }

  lemma NothingFitsIsExhausted(mem: Memory, idx: Index, lists: Lists, filed: Filed, h: Heap, needed: nat)
    requires Chain(h) && HeadersOk(mem, h) && IndexOk(mem, idx, lists, filed) && FilesFreeBlocks(filed, h)
    requires SizesFiled(mem, filed) && needed > 0
    ensures NothingFits(mem, idx, filed, needed) <==> Exhausted(h, idx.heads, needed)
  {
    hide Mapping, Chain, BucketOk, FirstLevelOk, HeadersOk, PassedOver, HeadTooSmall, HeadBelow, SizedAt;
    if NothingFits(mem, idx, filed, needed) {
      forall x | IsFree(h, x) && h.blocks[x].size >= needed ensures PassedOver(h, idx.heads, x, needed) {
        assert FiledAt(filed, h, x);
        NothingFitsAt(mem, idx, lists, filed, h, needed, x);
      }
    }
    if Exhausted(h, idx.heads, needed) {
      forall x | x in filed ensures HasHeader(mem, x) {
        NothingFitsAt(mem, idx, lists, filed, h, needed, x);
      }
      forall x | x in filed && SizedAt(mem, filed, x) && mem[x].header.size >= needed
        ensures filed[x].InRange() && filed[x].fl == Mapping(needed).fl
                && (filed[x].sl < Mapping(needed).sl || HeadTooSmall(mem, idx, filed[x], needed))
      {
        NothingFitsAt(mem, idx, lists, filed, h, needed, x);
      }
    }
  }

  lemma PayloadsUnchanged(h: Heap, mem: Memory)
    ensures PayloadsKept(h, {}, mem, mem)
  {
  }

  /** A filed block of at least `needed` bytes serves the request, at any alignment. */
  lemma FoundFits(mem: Memory, filed: Filed, h: Heap, b: nat, size: nat, align: nat)
    requires Geometry(h) && Chain(h) && HeadersOk(mem, h) && FilesFreeBlocks(filed, h)
    requires Requestable(size, align) && b in filed
    requires HasHeader(mem, b) && mem[b].header.size >= Needed(size, align)
    ensures EffectiveAlign(EffectiveAlign(align)) == EffectiveAlign(align)
    ensures IsFree(h, b) && h.blocks[b].size >= Needed(size, align)
    ensures h.blocks[b].size > 0 && filed[b] == Mapping(h.blocks[b].size)
    ensures CanAlloc(h, b, size, EffectiveAlign(align))
  {
    hide Mapping, Chain, AlignUp, IsPow2, TotalConsumed, PrevTagOk;
    assert FiledAt(filed, h, b);
    assert HeaderAt(mem, h, b);
    Facts(h, b);
    EffectiveAlignIsPow2(align);
    RoundToWord(HEADER_SIZE + (EffectiveAlign(align) - HEADER_SIZE) + size);
    var ea := EffectiveAlign(align);
    assert Placeable(b, size, ea);
    TotalConsumedBounds(b, size, ea);
  }

  // ---------------------------------------------------------------- free

  /** The memories differ at most in the words `touched` and in node words of the blocks `s`. */
  ghost predicate DiffersIn(mem: Memory, mem': Memory, touched: set<nat>, s: set<nat>) {
    forall w: nat :: w !in touched && !IsNodeWord(s, w) ==> SameWord(mem, mem', w)
  }

  lemma DiffersAfterNodes(mem: Memory, mem1: Memory, mem2: Memory, touched: set<nat>, s: set<nat>, s': set<nat>)
    requires DiffersIn(mem, mem1, touched, s) && OnlyNodesDiffer(mem1, mem2, s') && s' <= s
    ensures DiffersIn(mem, mem2, touched, s)
  {
    forall w: nat | w !in touched && !IsNodeWord(s, w) ensures SameWord(mem, mem2, w) {
      assert !IsNodeWord(s', w);
      assert SameWord(mem, mem1, w);
    }
  }

  lemma FiledAreBlocks(filed: Filed, h: Heap)
    requires FilesFreeBlocks(filed, h)
    ensures forall x :: x in filed.Keys ==> x in h.blocks && h.blocks[x].Free?
  {
    hide Mapping;
    forall x | x in filed.Keys ensures x in h.blocks && h.blocks[x].Free? { assert FiledAt(filed, h, x); }
  }

  /** A write to a header word keeps the index. */
  lemma TagWriteFrame(mem: Memory, idx: Index, lists: Lists, filed: Filed, h: Heap, t: nat, word: Word)
    requires IndexOk(mem, idx, lists, filed) && Chain(h) && IsTag(h, t)
    requires forall x :: x in filed ==> x in h.blocks
    ensures IndexOk(mem[t := word], idx, lists, filed)
  {
    hide Chain, IndexOk;
    forall x | x in filed ensures SameNode(mem, mem[t := word], x) {
      NodeWordNotTag(h, x);
    }
    IndexFrame(mem, mem[t := word], idx, lists, filed);
  }

  /** Tags outside `touched` are as they were. */
  lemma TagUntouched(h: Heap, mem: Memory, mem': Memory, touched: set<nat>, filed: Filed, t: nat)
    requires Chain(h) && FilesFreeBlocks(filed, h) && HeadersOk(mem, h)
    requires DiffersIn(mem, mem', touched, filed.Keys) && IsTag(h, t) && t !in touched
    ensures HasHeader(mem, t) && t in mem' && mem'[t] == mem[t]
  {
    hide Chain, Mapping, PrevTagOk;
    FiledAreBlocks(filed, h);
    TagIsNotNodeWord(h, filed.Keys, t);
    assert SameWord(mem, mem', t);
    if t in h.blocks { assert HeaderAt(mem, h, t); }
  }

  /** With the region's tags written, coalescing is complete but for filing the new block. */
  lemma CoalesceReady(mem: Memory, mem1: Memory, filed: Filed, filed1: Filed, h: Heap, ptr: nat, lo: nat, hi: nat)
    requires Inv(h) && HeadersOk(mem, h) && FilesFreeBlocks(filed, h) && CanFree(h, ptr)
    requires var a := ptr - HEADER_SIZE;
             var n := After(h, a);
             && hi == (if IsFree(h, n) then After(h, n) else n)
             && (FreeBefore(h, lo, a) || (lo == a && forall p :: !FreeBefore(h, p, a)))
             && filed1 == filed - {n, lo}
    requires DiffersIn(mem, mem1, {ptr - HEADER_SIZE, lo, hi}, filed.Keys)
    requires HasHeader(mem, lo) && HasHeader(mem1, lo)
    requires mem1[lo].header == mem[lo].header.(size := hi - lo, free := true)
    requires HasHeader(mem, hi) && HasHeader(mem1, hi)
    requires mem1[hi].header == mem[hi].header.(prevPhysSize := hi - lo, prevFree := true)
    ensures lo < hi && Release(h, ptr) == Coalesced(h, lo, hi)
    ensures Inv(Coalesced(h, lo, hi)) && HeadersOk(mem1, Coalesced(h, lo, hi))
    ensures lo !in filed1 && forall y :: y in filed1 ==> Apart(lo, y) && IsFree(h, y)
    ensures FilesFreeBlocks(filed1[lo := Mapping(hi - lo)], Coalesced(h, lo, hi))
  {
    hide Chain, Mapping, PrevTagOk, HeadersOk, NoAdjacentFree, Release, Coalesced;
    var a := ptr - HEADER_SIZE;
    var n := After(h, a);
    Facts(h, a);
    ReleaseIsCoalesced(h, ptr, lo, hi);
    ReleaseKeepsInv(h, ptr);
    assert lo in h.blocks && lo <= a by { if FreeBefore(h, lo, a) { Facts(h, lo); } }
    forall t: nat | IsTag(h, t) && (t < lo || t > hi) && t in mem ensures t in mem1 && mem1[t] == mem[t] {
      if IsFree(h, n) { Facts(h, n); }
      TagUntouched(h, mem, mem1, {a, lo, hi}, filed, t);
    }
    CoalescedHeaders(mem, mem1, h, lo, hi);
    forall x: nat ensures x in filed1 <==> x in filed && !(lo <= x < hi) {
      assert FiledAt(filed, h, x);
      RegionBlocks(h, a, lo, hi, x);
    }
    FiledAfterCoalesce(filed, filed1, h, lo, hi);
    forall y | y in filed1 ensures Apart(lo, y) && IsFree(h, y) {
      assert FiledAt(filed, h, y);
      BlocksApart(h, lo, y);
    }
  }

  /** The free blocks inside the coalesced region are the two neighbours. */
  lemma RegionBlocks(h: Heap, a: nat, lo: nat, hi: nat, x: nat)
    requires Chain(h) && a in h.blocks && h.blocks[a].Used?
    requires var n := After(h, a); hi == (if IsFree(h, n) then After(h, n) else n)
    requires FreeBefore(h, lo, a) || lo == a
    ensures IsFree(h, x) && lo <= x < hi ==> x == lo || x == After(h, a)
    ensures IsFree(h, After(h, a)) ==> lo <= After(h, a) < hi
    ensures lo < hi
  {
    hide Chain;
    var n := After(h, a);
    Facts(h, a);
    Facts(h, lo);
    if IsFree(h, n) { Facts(h, n); }
    if IsFree(h, x) && lo <= x < hi {
      Disjoint(h, lo, x);
      Disjoint(h, a, x);
      if n in h.blocks { Disjoint(h, n, x); }
    }
  }

  /** Filing the coalesced block completes `free`. */
  lemma CoalesceDone(mem: Memory, mem1: Memory, mem2: Memory, filed: Filed, filed1: Filed, h: Heap, ptr: nat, lo: nat, hi: nat)
    requires Inv(h) && FilesFreeBlocks(filed, h) && CanFree(h, ptr)
    requires lo in h.blocks && IsTag(h, hi) && lo < hi && (FreeBefore(h, lo, ptr - HEADER_SIZE) || lo == ptr - HEADER_SIZE)
    requires filed1.Keys <= filed.Keys
    requires Inv(Coalesced(h, lo, hi)) && HeadersOk(mem1, Coalesced(h, lo, hi))
    requires FilesFreeBlocks(filed1[lo := Mapping(hi - lo)], Coalesced(h, lo, hi))
    requires DiffersIn(mem, mem1, {ptr - HEADER_SIZE, lo, hi}, filed.Keys)
    requires OnlyNodesDiffer(mem1, mem2, filed1.Keys + {lo})
    ensures HeadersOk(mem2, Coalesced(h, lo, hi))
    ensures PayloadsKept(h, {ptr - HEADER_SIZE}, mem, mem2)
  {
    hide Chain, Mapping, PrevTagOk, HeadersOk, NoAdjacentFree, Coalesced, FilesFreeBlocks;
    var h' := Coalesced(h, lo, hi);
    var a := ptr - HEADER_SIZE;
    FiledAreBlocks(filed1[lo := Mapping(hi - lo)], h');
    FiledAreBlocks(filed, h);
    HeadersSurviveNodes(mem1, mem2, h', filed1.Keys + {lo});
    forall b: nat, w: nat | InPayload(h, b, w) && b !in {a} ensures SameWord(mem, mem2, w) {
      PayloadIsPrivate(h, b, w);
      assert lo == a || IsFree(h, lo);
      var s := filed.Keys + {lo};
      if IsNodeWord(s, w) {
        NodeWordsAreInside(h, s, w);
      }
      assert !IsNodeWord(s, w);
      assert !IsNodeWord(filed.Keys, w) && !IsNodeWord(filed1.Keys + {lo}, w);
      assert SameWord(mem, mem1, w);
    }
  }

  lemma DiffersByTag(mem: Memory, mem1: Memory, mem2: Memory, touched: set<nat>, s: set<nat>, t: nat)
    requires mem1 == mem || DiffersIn(mem, mem1, touched, s)
    requires t in mem2 && mem2 == mem1[t := mem2[t]] && t in touched
    ensures DiffersIn(mem, mem2, touched, s)
  {
    forall w: nat | w !in touched && !IsNodeWord(s, w) ensures SameWord(mem, mem2, w) {
      if DiffersIn(mem, mem1, touched, s) { assert SameWord(mem, mem1, w); }
    }
  }

  lemma DiffersMore(mem: Memory, mem1: Memory, touched: set<nat>, more: set<nat>, s: set<nat>)
    requires DiffersIn(mem, mem1, touched, s) && touched <= more
    ensures DiffersIn(mem, mem1, more, s)
  {
  }

  /** The tags `free` starts from. */
  lemma TagsAround(mem: Memory, filed: Filed, h: Heap, a: nat)
    requires Inv(h) && HeadersOk(mem, h) && a in h.blocks && h.blocks[a].Used?
    requires FilesFreeBlocks(filed, h)
    ensures HasHeader(mem, a) && mem[a].header.size == h.blocks[a].size && PrevTagOk(h, a, mem[a].header)
    ensures IsTag(h, a) && IsTag(h, After(h, a)) && a < After(h, a) <= h.end && a !in filed
    ensures HasHeader(mem, After(h, a)) && (mem[After(h, a)].header.free <==> IsFree(h, After(h, a)))
    ensures IsFree(h, After(h, a)) ==> After(h, a) < h.end
  {
    hide Chain, Mapping, PrevTagOk;
    Facts(h, a);
    assert HeaderAt(mem, h, a);
    assert FiledAt(filed, h, a);
    var n := After(h, a);
    if n in h.blocks { Facts(h, n); assert HeaderAt(mem, h, n); }
  }

  /** A free block's header carries the size it is filed under. */
  lemma FiledHeader(mem: Memory, filed: Filed, h: Heap, x: nat)
    requires Inv(h) && HeadersOk(mem, h) && FilesFreeBlocks(filed, h) && IsFree(h, x)
    ensures x in filed && HasHeader(mem, x) && mem[x].header.size == h.blocks[x].size > 0
    ensures filed[x] == Mapping(h.blocks[x].size)
    ensures After(h, x) == x + h.blocks[x].size
  {
    hide Chain, Mapping, PrevTagOk;
    assert FiledAt(filed, h, x);
    assert HeaderAt(mem, h, x);
  }

  lemma TagSurvives(h: Heap, mem: Memory, mem': Memory, filed: Filed, s: set<nat>, t: nat)
    requires Chain(h) && FilesFreeBlocks(filed, h) && IsTag(h, t) && t in mem
    requires s <= filed.Keys && OnlyNodesDiffer(mem, mem', s)
    ensures t in mem' && mem'[t] == mem[t]
  {
    hide Chain, FilesFreeBlocks;
    FiledAreBlocks(filed, h);
    TagIsNotNodeWord(h, s, t);
  }

  lemma NotFiled(filed: Filed, h: Heap, x: nat)
    requires FilesFreeBlocks(filed, h) && !IsFree(h, x)
    ensures x !in filed
  {
    assert FiledAt(filed, h, x);
  }

  lemma NothingDiffers(mem: Memory, s: set<nat>)
    ensures DiffersIn(mem, mem, {}, s)
  {
  }

  lemma FreeBeforeFacts(h: Heap, p: nat, a: nat)
    requires Chain(h) && FreeBefore(h, p, a) && a in h.blocks && h.blocks[a].Used?
    ensures IsTag(h, p) && IsFree(h, p) && p < a && p + h.blocks[p].size == a && p != After(h, a)
  {
    hide Chain;
    Facts(h, p);
    Facts(h, a);
  }

  lemma HiIsTag(h: Heap, a: nat, lo: nat, hi: nat)
    requires Chain(h) && a in h.blocks && h.blocks[a].Used?
    requires FreeBefore(h, lo, a) || lo == a
    requires hi == if IsFree(h, After(h, a)) then After(h, After(h, a)) else After(h, a)
    ensures IsTag(h, hi) && lo < hi && a < hi && lo in h.blocks && IsTag(h, lo)
  {
    hide Chain;
    Facts(h, a);
    Facts(h, lo);
    if IsFree(h, After(h, a)) { Facts(h, After(h, a)); }
  }

  lemma CoalescedBounds(h: Heap, lo: nat, hi: nat)
    requires lo <= hi
    ensures Coalesced(h, lo, hi).start == h.start && Coalesced(h, lo, hi).end == h.end
  {
  }
}
