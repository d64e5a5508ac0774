/** The TLSF allocator: `init`, `malloc` and `free` as the kernel runs them, on bitmap words, list
    heads and header and link words in memory. */
module Tlsf {
  import opened Bits
  import opened TlsfMapping
  import opened Options
  import opened FreeLists
  import opened TlsfMemory
  import opened TlsfHeap
  import opened TlsfIndex
  import opened TlsfHeaders
  import opened TlsfPayload

  lemma WordBits(b: Bucket)
    requires b.InRange()
    ensures Pow2(b.fl) < Pow2(32) && Pow2(b.sl) < Pow2(32)
  {
    hide Pow2;
    Pow2Monotone(b.fl, 32);
    Pow2Monotone(b.sl, 32);
  }

  lemma InitialFiled(h: Heap, start: nat, size: nat)
    requires size > 0 && h.blocks == map[start := Block.Free(size)]
    ensures FilesFreeBlocks(map[start := Mapping(size)], h)
  {
    hide Mapping;
    var filed: Filed := map[start := Mapping(size)];
    forall a: nat ensures FiledAt(filed, h, a) { }
  }

  class TlsfAllocator {
    var heapStart: nat
    var heapEnd: nat
    var flBitmap: nat
    var slBitmaps: seq<nat>
    var freeLists: seq<seq<Option<nat>>>

    /** The machine's memory, by word address. */
    var mem: Memory

    /** The physical chain of blocks. */
    ghost var blocks: Blocks

    /** The contents of the free lists, and the blocks filed in them. */
    ghost var lists: Lists
    ghost var filed: Filed

    ghost function TheHeap(): Heap
      reads this
    {
      Heap(heapStart, heapEnd, blocks)
    }

    ghost function TheIndex(): Index
      reads this
    {
      Index(flBitmap, slBitmaps, freeLists)
    }

    /** All three views agree: the block chain, its tags in memory, and the index of free blocks. */
    ghost predicate Valid()
      reads this
    {
      && Inv(TheHeap())
      && HeadersOk(mem, TheHeap())
      && IndexOk(mem, TheIndex(), lists, filed)
      && FilesFreeBlocks(filed, TheHeap())
    }

    /** `TlsfAllocator::new` on a machine whose memory is `memory`. */
    constructor (memory: Memory)
      ensures mem == memory && EmptyIndex(TheIndex())
    {
      heapStart, heapEnd := 0, 0;
      flBitmap := 0;
      slBitmaps := seq(FL_COUNT, _ => 0);
      freeLists := seq(FL_COUNT, _ => seq(SL_COUNT, _ => None));
      mem := memory;
    }

    /** Makes the whole region one free block, with a sentinel header after it. */
    method Init(start: nat, size: nat)
      requires EmptyIndex(TheIndex())
      requires Geometry(Heap(start, start + size, map[]))
      modifies this
      ensures Valid()
      ensures TheHeap() == Heap(start, start + size, map[start := Block.Free(size)])
      ensures IsInitial(TheHeap())
      ensures size > 0 && TheIndex() == SingleIndex(Mapping(size), start)
    {
      hide Mapping, IndexOk, HeadersOk, Chain, NoAdjacentFree, FilesFreeBlocks, OnlyNodesDiffer, SingleIndex, NoLists;
      heapStart := start;
      heapEnd := start + size;
      mem := mem[start := HeaderWord(Header(0, size, true, false))];
      mem := mem[start + size := HeaderWord(Header(size, 0, false, true))];
      EmptyIndexOk(mem, TheIndex());
      lists, filed := NoLists(), map[];
      blocks := map[start := Block.Free(size)];
      ghost var mem1 := mem;
      InitialInv(TheHeap());
      InitialHeaders(mem, TheHeap());
      ghost var none: Filed := map[];
      Insert(start, size);
      assert none.Keys + {start} == {start};
      HeadersSurviveNodes(mem1, mem, TheHeap(), {start});
      InitialFiled(TheHeap(), start, size);
      SingleIndexUnique(mem, TheIndex(), lists, Mapping(size), start);
    }

    method Insert(block: nat, size: nat)
      requires size > 0
      requires IndexOk(mem, TheIndex(), lists, filed)
      requires block !in filed && forall y :: y in filed ==> Apart(block, y)
      modifies `mem, `flBitmap, `slBitmaps, `freeLists, `lists, `filed
      ensures IndexOk(mem, TheIndex(), lists, filed)
      ensures filed == old(filed)[block := Mapping(size)]
      ensures Mapping(size) in old(lists)
      ensures lists == old(lists)[Mapping(size) := [block] + old(lists)[Mapping(size)]]
      ensures OnlyNodesDiffer(old(mem), mem, old(filed).Keys + {block})
    {
      hide Mapping, Or, Pow2, FirstLevelOk, FiledOk, Linked, TestBit, LinkFront, Inserted;
      var b := Mapping(size);
      InsertOk(mem, TheIndex(), lists, filed, b, block);
      ghost var head := freeLists[b.fl][b.sl];
      assert head.Some? ==> head.value in lists[b];
      FrontDiffers(mem, block, head, filed.Keys);
      LinkNode(block, b);
      lists := lists[b := [block] + lists[b]];
      filed := filed[block := b];
    }

    static lemma FrontDiffers(m: Memory, block: nat, head: Option<nat>, keys: set<nat>)
      requires head.Some? ==> head.value in keys
      ensures OnlyNodesDiffer(m, LinkFront(m, block, head), keys + {block})
    {
    }

    /** Writes the node's links and makes it the head of its list. */
    method LinkNode(block: nat, b: Bucket)
      requires Shape(TheIndex()) && b.InRange()
      modifies `mem, `flBitmap, `slBitmaps, `freeLists
      ensures mem == LinkFront(old(mem), block, old(freeLists)[b.fl][b.sl])
      ensures TheIndex() == Inserted(old(TheIndex()), b, block)
    {
      hide Or, Pow2;
      match freeLists[b.fl][b.sl] {
        case Some(head) =>
          mem := mem[block + 8 := LinkWord(None)];
          mem := mem[block + 16 := LinkWord(Some(head))];
          mem := mem[head + 8 := LinkWord(Some(block))];
        case None =>
          mem := mem[block + 8 := LinkWord(None)];
          mem := mem[block + 16 := LinkWord(None)];
      }
      freeLists := freeLists[b.fl := freeLists[b.fl][b.sl := Some(block)]];
      slBitmaps := slBitmaps[b.fl := Or(slBitmaps[b.fl], Pow2(b.sl))];
      flBitmap := Or(flBitmap, Pow2(b.fl));
    }

    method Remove(block: nat)
      requires IndexOk(mem, TheIndex(), lists, filed)
      requires block in filed && HasHeader(mem, block)
      requires mem[block].header.size > 0 && Mapping(mem[block].header.size) == filed[block]
      modifies `mem, `flBitmap, `slBitmaps, `freeLists, `lists, `filed
      ensures IndexOk(mem, TheIndex(), lists, filed)
      ensures filed == old(filed) - {block}
      ensures var b := old(filed)[block];
              b in old(lists) && exists i: nat ::
                i < |old(lists)[b]| && old(lists)[b][i] == block && lists == old(lists)[b := Without(old(lists)[b], i)]
      ensures OnlyNodesDiffer(old(mem), mem, old(filed).Keys)
    {
      hide Mapping, And, Not, Pow2, IndexOk, PrevOf, NextOf, Without;
      var b := Mapping(mem[block].header.size);
      WordBits(b);
      ghost var i, prev, next := FindFiled(mem, TheIndex(), lists, filed, block);
      RemoveOk(mem, TheIndex(), lists, filed, block, i);
      IndexShape(mem, TheIndex(), lists, filed);
      UnlinkNode(block, b, prev, next);
      lists := lists[b := Without(lists[b], i)];
      filed := filed - {block};
    }

    static lemma IndexShape(m: Memory, idx: Index, ls: Lists, f: Filed)
      requires IndexOk(m, idx, ls, f)
      ensures Shape(idx)
    {
    }

    /** The four cases of `remove`, by the node's own links. */
    method UnlinkNode(block: nat, b: Bucket, ghost prev: Option<nat>, ghost next: Option<nat>)
      requires Shape(TheIndex()) && b.InRange() && Pow2(b.sl) < Pow2(32) && Pow2(b.fl) < Pow2(32)
      requires NodeIs(mem, block, prev, next)
      modifies `mem, `flBitmap, `slBitmaps, `freeLists
      ensures mem == Unlink(old(mem), prev, next) && TheIndex() == Removed(old(TheIndex()), b, prev, next)
    {
      hide And, Not, Pow2;
      match (mem[block + 8].link, mem[block + 16].link) {
        case (None, None) =>
          freeLists := freeLists[b.fl := freeLists[b.fl][b.sl := None]];
          slBitmaps := slBitmaps[b.fl := And(slBitmaps[b.fl], Not(Pow2(b.sl), 32))];
          if slBitmaps[b.fl] == 0 {
            flBitmap := And(flBitmap, Not(Pow2(b.fl), 32));
          }
        case (None, Some(next)) =>
          freeLists := freeLists[b.fl := freeLists[b.fl][b.sl := Some(next)]];
          mem := mem[next + 8 := LinkWord(None)];
        case (Some(prev), None) =>
          mem := mem[prev + 16 := LinkWord(None)];
        case (Some(prev), Some(next)) =>
          mem := mem[prev + 16 := LinkWord(Some(next))];
          mem := mem[next + 8 := LinkWord(Some(prev))];
      }
    }

    method Pop(fli: nat, sl: nat) returns (block: nat)
      requires Bucket(fli, sl).InRange()
      requires IndexOk(mem, TheIndex(), lists, filed) && SizesFiled(mem, filed)
      requires freeLists[fli][sl].Some?
      modifies `mem, `flBitmap, `slBitmaps, `freeLists, `lists, `filed
      ensures IndexOk(mem, TheIndex(), lists, filed)
      ensures block == old(freeLists)[fli][sl].value
      ensures block in old(filed) && old(filed)[block] == Bucket(fli, sl)
      ensures filed == old(filed) - {block}
      ensures OnlyNodesDiffer(old(mem), mem, old(filed).Keys)
    {
      hide Mapping, BucketOk, FiledOk, FirstLevelOk;
      HeadOfBucket(mem, TheIndex(), lists, filed, Bucket(fli, sl));
      block := freeLists[fli][sl].value;
      assert SizedAt(mem, filed, block);
      Remove(block);
    }

    method FindBlock(fli: nat, sl: nat, needed: nat) returns (r: Option<nat>)
      requires needed >= MIN_BLOCK_SIZE && Bucket(fli, sl) == Mapping(needed)
      requires IndexOk(mem, TheIndex(), lists, filed) && SizesFiled(mem, filed)
      modifies `mem, `flBitmap, `slBitmaps, `freeLists, `lists, `filed
      ensures IndexOk(mem, TheIndex(), lists, filed)
      ensures r.None? <==> old(NothingFits(mem, TheIndex(), filed, needed))
      ensures r.None? ==> unchanged(this)
      ensures r.Some? ==>
                && r.value in old(filed) && HasHeader(old(mem), r.value)
                && old(mem)[r.value].header.size >= needed
                && filed == old(filed) - {r.value}
                && old(filed)[r.value].InRange()
                && old(freeLists)[old(filed)[r.value].fl][old(filed)[r.value].sl] == r
                && old(Picks(mem, TheIndex(), needed, filed[r.value]))
      ensures OnlyNodesDiffer(old(mem), mem, old(filed).Keys)
    {
      hide Mapping, BucketOk, FirstLevelOk, And, Not, Pow2, TestBit, TrailingZeros, NothingFits, FiledOk;
      LowestFrom(slBitmaps[fli], sl);
      var slMap := And(slBitmaps[fli], Not(Pow2(sl) - 1, 32));
      if slMap != 0 {
        var start := TrailingZeros(slMap);
        forall s: nat | sl <= s < start ensures HeadTooSmall(mem, TheIndex(), Bucket(fli, s), needed) {
          HeadOfBucket(mem, TheIndex(), lists, filed, Bucket(fli, s));
        }
        for sl2 := start to SL_COUNT
          invariant unchanged(this)
          invariant forall s: nat :: sl <= s < sl2 ==> HeadTooSmall(mem, TheIndex(), Bucket(fli, s), needed)
        {
          AndPow2(slBitmaps[fli], sl2);
          HeadOfBucket(mem, TheIndex(), lists, filed, Bucket(fli, sl2));
          if And(slBitmaps[fli], Pow2(sl2)) != 0 {
            if freeLists[fli][sl2].Some? {
              var b := freeLists[fli][sl2].value;
              assert SizedAt(mem, filed, b);
              if mem[b].header.size >= needed {
                ReachedFits(mem, TheIndex(), filed, needed, b);
                var block := Pop(fli, sl2);
                return Some(block);
              }
            }
          }
        }
      }
      assert forall s: nat :: sl <= s < SL_COUNT ==> HeadTooSmall(mem, TheIndex(), Bucket(fli, s), needed) by {
        forall s: nat | sl <= s < SL_COUNT ensures HeadTooSmall(mem, TheIndex(), Bucket(fli, s), needed) {
          HeadOfBucket(mem, TheIndex(), lists, filed, Bucket(fli, s));
        }
      }

      HigherLevels(mem, TheIndex(), lists, filed, fli);
      var flMap := And(flBitmap, Not(Pow2(fli + 1) - 1, 32));
      if flMap != 0 {
        var fl2 := TrailingZeros(flMap);
        var sl2 := TrailingZeros(slBitmaps[fl2]);
        HeadOfBucket(mem, TheIndex(), lists, filed, Bucket(fl2, sl2));
        ghost var b := freeLists[fl2][sl2].value;
        assert SizedAt(mem, filed, b);
        HigherLevelIsLarger(needed, mem[b].header.size);
        ReachedFits(mem, TheIndex(), filed, needed, b);
        var block := Pop(fl2, sl2);
        return Some(block);
      }
      SearchFails(mem, TheIndex(), filed, needed);
      return None;
    }

    method AllocFrom(block: nat, userSize: nat, align: nat) returns (p: Option<nat>)
      requires Popped(mem, TheIndex(), lists, filed, TheHeap(), block)
      requires Placeable(block, userSize, align) && EffectiveAlign(align) == align
      modifies `mem, `flBitmap, `slBitmaps, `freeLists, `lists, `filed, `blocks
      ensures Valid()
      ensures p.None? <==> old(blocks)[block].size < TotalConsumed(block, userSize, align)
      ensures p.None? ==> TheHeap() == old(TheHeap())
      ensures p.Some? ==>
                && CanAlloc(old(TheHeap()), block, userSize, align)
                && p.value == UserPtr(block, userSize, align)
                && TheHeap() == Alloc(old(TheHeap()), block, userSize, align)
      ensures PayloadsKept(old(TheHeap()), {}, old(mem), mem)
    {
      hide Mapping, Inv, Chain, HeadersOk, IndexOk, FilesFreeBlocks, AlignUp, OnlyNodesDiffer, PayloadsKept, IsPow2, PrevTagOk, Apart, HeaderAt;
      ghost var h := TheHeap();
      PoppedHeaders(mem, TheIndex(), lists, filed, h, block);
      var blockSize := mem[block].header.size;
      var userStart := block + HEADER_SIZE;
      UserPtrRange(block, userSize, align);
      var alignedStart := AlignUp(userStart, align);
      var frontPadding := alignedStart - userStart;
      var total := Max(AlignUp(HEADER_SIZE + frontPadding + userSize, 8), MIN_BLOCK_SIZE);
      assert total == TotalConsumed(block, userSize, align);

      if blockSize < total {
        mem := mem[block := HeaderWord(mem[block].header.(size := blockSize, free := true))];
        assert mem == old(mem);
        ghost var filed0 := filed;
        forall y | y in filed ensures Apart(block, y) { PoppedFacts(mem, TheIndex(), lists, filed, h, block, y); }
        Insert(block, blockSize);
        RefileReady(old(mem), mem, old(TheIndex()), old(lists), filed0, h, block);
        return None;
      }

      if blockSize >= total + MIN_BLOCK_SIZE {
        SplitOff(block, blockSize, total, userSize, align);
      } else {
        mem := mem[block := HeaderWord(mem[block].header.(free := false))];
        var next := block + blockSize;
        mem := mem[next := HeaderWord(mem[next].header.(prevFree := false))];
        TakeWhole(old(mem), mem, TheIndex(), lists, filed, h, block, userSize, align);
        blocks := Alloc(h, block, userSize, align).blocks;
      }
      return Some(alignedStart);
    }

    /** Splits the remainder off after the allocation and files it. */
    method SplitOff(block: nat, blockSize: nat, total: nat, ghost userSize: nat, ghost align: nat)
      requires Popped(mem, TheIndex(), lists, filed, TheHeap(), block)
      requires Placeable(block, userSize, align) && EffectiveAlign(align) == align
      requires blockSize == blocks[block].size && total == TotalConsumed(block, userSize, align)
      requires blockSize >= total + MIN_BLOCK_SIZE
      modifies `mem, `flBitmap, `slBitmaps, `freeLists, `lists, `filed, `blocks
      ensures Valid()
      ensures CanAlloc(old(TheHeap()), block, userSize, align)
      ensures TheHeap() == Alloc(old(TheHeap()), block, userSize, align)
      ensures PayloadsKept(old(TheHeap()), {}, old(mem), mem)
    {
      hide Mapping, Inv, Chain, HeadersOk, IndexOk, FilesFreeBlocks, AlignUp, OnlyNodesDiffer, PayloadsKept, IsPow2, PrevTagOk;
      ghost var h := TheHeap();
      PoppedHeaders(mem, TheIndex(), lists, filed, h, block);
      var remAddr := block + total;
      var remSize := blockSize - total;
      mem := mem[block := HeaderWord(mem[block].header.(size := total, free := false))];
      mem := mem[remAddr := HeaderWord(Header(total, remSize, true, false))];
      var next := remAddr + remSize;
      mem := mem[next := HeaderWord(mem[next].header.(prevPhysSize := remSize, prevFree := true))];
      ghost var mem1, filed1 := mem, filed;
      SplitFront(old(mem), mem, TheIndex(), lists, filed, h, block, userSize, align);
      blocks := Alloc(h, block, userSize, align).blocks;
      Insert(remAddr, remSize);
      SplitDone(old(mem), mem1, mem, old(TheIndex()), old(lists), filed1, h, block, userSize, align);
    }

    /** Serves the request from a free block exactly when the search reaches one that is large enough. */
    method Malloc(size: nat, align: nat) returns (p: Option<nat>)
      requires Valid() && Requestable(size, align)
      modifies `mem, `flBitmap, `slBitmaps, `freeLists, `lists, `filed, `blocks
      ensures Valid()
      ensures p.None? <==> Exhausted(old(TheHeap()), old(freeLists), Needed(size, align))
      ensures p.None? ==> unchanged(this)
      ensures p.Some? ==>
                exists b ::
                  && CanAlloc(old(TheHeap()), b, size, EffectiveAlign(align))
                  && old(blocks)[b].size >= Needed(size, align)
                  && (var c := Mapping(old(blocks)[b].size);
                      old(freeLists)[c.fl][c.sl] == Some(b) && Picks(old(mem), old(TheIndex()), Needed(size, align), c))
                  && p.value == UserPtr(b, size, EffectiveAlign(align))
                  && TheHeap() == Alloc(old(TheHeap()), b, size, EffectiveAlign(align))
      ensures Step(old(TheHeap()), TheHeap())
      ensures p.Some? ==> align > 0 && p.value % align == 0
      ensures PayloadsKept(old(TheHeap()), {}, old(mem), mem)
      ensures old(IsInitial(TheHeap())) && heapEnd - heapStart < 0x100_0000 ==>
                (p.Some? <==> size + (if align < 8 then 8 else align) <= heapEnd - heapStart)
    {
      hide Mapping, Chain, HeadersOk, IndexOk, FilesFreeBlocks, AlignUp, OnlyNodesDiffer, PayloadsKept, Exhausted, NothingFits;
      hide IsPow2, PrevTagOk, TotalConsumed, UserPtr, Popped, Picks;
      ghost var h := TheHeap();
      var effAlign := Max(align, HEADER_SIZE);
      EffectiveAlignIsPow2(align);
      var worstPadding := effAlign - HEADER_SIZE;
      var needed := Max(AlignUp(HEADER_SIZE + worstPadding + size, 8), MIN_BLOCK_SIZE);
      assert needed == Needed(size, align);
      if IsInitial(TheHeap()) && heapEnd - heapStart < CLASS_LIMIT { FreshHeapServes(size, align); }
      var b := Mapping(needed);
      var fli := Min(b.fl, FL_COUNT - 1);
      SizesAreFiled(mem, filed, h);
      NothingFitsIsExhausted(mem, TheIndex(), lists, filed, h, needed);
      var found := FindBlock(fli, b.sl, needed);
      match found {
        case None =>
          assert OnlyNodesDiffer(old(mem), mem, old(filed).Keys);
          PayloadsUnchanged(h, mem);
          return None;
        case Some(block) =>
          PopReady(old(mem), mem, TheIndex(), lists, old(filed), filed, h, block);
          FoundFits(old(mem), old(filed), h, block, size, align);
          ghost var mem1 := mem;
          p := AllocFrom(block, size, effAlign);
          PayloadsKeptTransitive(h, old(mem), mem1, mem);
          UserPtrBounds(block, size, effAlign);
          RequestedAlignment(p.value, align);
      }
    }

    /** The state of a `free` in progress: the chain is still `h`, and since `mem0` only the tags in
        `touched` and links of free blocks have been written. */
    ghost predicate Freeing(h: Heap, mem0: Memory, filed0: Filed, a: nat, touched: set<nat>)
      reads this
    {
      && TheHeap() == h && Inv(h) && HeadersOk(mem0, h) && FilesFreeBlocks(filed0, h)
      && a in h.blocks && h.blocks[a].Used?
      && IndexOk(mem, TheIndex(), lists, filed)
      && filed.Keys <= filed0.Keys
      && (forall x :: x in filed ==> filed[x] == filed0[x])
      && DiffersIn(mem0, mem, touched, filed0.Keys)
    }

    /** Unfiles a free block and leaves all tags alone. */
    method Unfile(x: nat, ghost h: Heap, ghost mem0: Memory, ghost filed0: Filed, ghost a: nat, ghost touched: set<nat>)
      requires Freeing(h, mem0, filed0, a, touched) && x in filed && IsFree(h, x) && x !in touched
      modifies `mem, `flBitmap, `slBitmaps, `freeLists, `lists, `filed
      ensures Freeing(h, mem0, filed0, a, touched)
      ensures filed == old(filed) - {x}
      ensures forall t: nat :: IsTag(h, t) && t in old(mem) ==> t in mem && mem[t] == old(mem)[t]
    {
      hide Mapping, Chain, HeadersOk, IndexOk, FilesFreeBlocks, OnlyNodesDiffer, DiffersIn, NoAdjacentFree;
      FiledHeader(mem0, filed0, h, x);
      TagUntouched(h, mem0, mem, touched, filed0, x);
      Remove(x);
      DiffersAfterNodes(mem0, old(mem), mem, touched, filed0.Keys, old(filed).Keys);
      forall t: nat | IsTag(h, t) && t in old(mem) ensures t in mem && mem[t] == old(mem)[t] {
        TagSurvives(h, old(mem), mem, filed0, old(filed).Keys, t);
      }
    }

    /** Writes one header word. */
    method WriteTag(t: nat, tag: Header, ghost h: Heap, ghost mem0: Memory, ghost filed0: Filed, ghost a: nat, ghost touched: set<nat>)
      requires Freeing(h, mem0, filed0, a, touched) && IsTag(h, t)
      modifies `mem
      ensures Freeing(h, mem0, filed0, a, touched + {t})
      ensures mem == old(mem)[t := HeaderWord(tag)]
    {
      hide Mapping, Chain, HeadersOk, IndexOk, FilesFreeBlocks, DiffersIn, NoAdjacentFree;
      FiledAreBlocks(filed0, h);
      TagWriteFrame(mem, TheIndex(), lists, filed, h, t, HeaderWord(tag));
      DiffersMore(mem0, mem, touched, touched + {t}, filed0.Keys);
      mem := mem[t := HeaderWord(tag)];
      DiffersByTag(mem0, old(mem), mem, touched + {t}, filed0.Keys, t);
    }

    /** The forward half of coalescing: absorb the next block if it is free. */
    method CoalesceForward(header: nat, size0: nat, ghost h: Heap, ghost mem0: Memory, ghost filed0: Filed) returns (size: nat)
      requires Freeing(h, mem0, filed0, header, {header}) && size0 == h.blocks[header].size && filed == filed0
      requires HasHeader(mem0, header) && mem == mem0[header := HeaderWord(mem0[header].header.(free := true))]
      requires mem0[header].header.size == size0
      modifies `mem, `flBitmap, `slBitmaps, `freeLists, `lists, `filed
      ensures Freeing(h, mem0, filed0, header, {header})
      ensures var n := After(h, header);
              && size == (if IsFree(h, n) then After(h, n) else n) - header
              && filed == filed0 - {n}
      ensures HasHeader(mem, header) && mem[header].header == mem0[header].header.(size := size, free := true)
    {
      hide Mapping, Chain, HeadersOk, IndexOk, FilesFreeBlocks, DiffersIn, NoAdjacentFree, PrevTagOk;
      size := size0;
      var next := header + size;
      TagsAround(mem0, filed0, h, header);
      if next < heapEnd && mem[next].header.free {
        FiledHeader(mem0, filed0, h, next);
        Unfile(next, h, mem0, filed0, header, {header});
        size := size + mem[next].header.size;
        WriteTag(header, mem[header].header.(size := size, free := true), h, mem0, filed0, header, {header});
        assert {header} + {header} == {header};
      } else {
        NotFiled(filed0, h, next);
      }
    }

    /** The backward half: fold the block into the previous one if that is free. */
    method CoalesceBackward(a: nat, size0: nat, ghost h: Heap, ghost mem0: Memory, ghost filed0: Filed)
      returns (header: nat, size: nat)
      requires Freeing(h, mem0, filed0, a, {a}) && filed == filed0 - {After(h, a)}
      requires HasHeader(mem0, a) && PrevTagOk(h, a, mem0[a].header)
      requires HasHeader(mem, a) && mem[a].header == mem0[a].header.(size := size0, free := true)
      modifies `mem, `flBitmap, `slBitmaps, `freeLists, `lists, `filed
      ensures Freeing(h, mem0, filed0, a, {a, header})
      ensures FreeBefore(h, header, a) || (header == a && forall p :: !FreeBefore(h, p, a))
      ensures header <= a && header + size == a + size0
      ensures filed == filed0 - {After(h, a), header}
      ensures HasHeader(mem0, header) && HasHeader(mem, header)
      ensures mem[header].header == mem0[header].header.(size := size, free := true)
    {
      hide Mapping, Chain, HeadersOk, IndexOk, FilesFreeBlocks, DiffersIn, NoAdjacentFree, PrevTagOk;
      header, size := a, size0;
      PrevTagFindsFreeBefore(h, a, mem0[a].header);
      if mem[a].header.prevFree {
        var prevSize := mem[a].header.prevPhysSize;
        var prev := a - prevSize;
        FreeBeforeFacts(h, prev, a);
        FiledHeader(mem0, filed0, h, prev);
        TagUntouched(h, mem0, mem, {a}, filed0, prev);
        Unfile(prev, h, mem0, filed0, a, {a});
        size := size + prevSize;
        header := prev;
        WriteTag(prev, mem[prev].header.(size := size, free := true), h, mem0, filed0, a, {a});
        assert {a} + {prev} == {a, prev};
      } else {
        assert {a, header} == {a};
        NotFiled(filed0, h, a);
      }
    }

    /** Returns the block of `ptr` to the heap, coalescing it with its free neighbours. Null is a no-op. */
    method Free(ptr: nat)
      requires Valid() && (ptr == 0 || CanFree(TheHeap(), ptr))
      modifies `mem, `flBitmap, `slBitmaps, `freeLists, `lists, `filed, `blocks
      ensures Valid()
      ensures ptr == 0 ==> unchanged(this)
      ensures ptr != 0 ==>
                && TheHeap() == Release(old(TheHeap()), ptr)
                && PayloadsKept(old(TheHeap()), {ptr - HEADER_SIZE}, old(mem), mem)
      ensures Step(old(TheHeap()), TheHeap())
    {
      hide Mapping, Chain, HeadersOk, IndexOk, FilesFreeBlocks, OnlyNodesDiffer, PayloadsKept, DiffersIn;
      hide PrevTagOk, NoAdjacentFree, Release, Coalesced, InPayload, Step;
      if ptr == 0 {
        assert Step(TheHeap(), TheHeap()) by { NoStep(TheHeap()); }
        return;
      }
      ghost var h, mem0, filed0 := TheHeap(), mem, filed;
      var a := ptr - HEADER_SIZE;
      TagsAround(mem, filed, h, a);
      var size := mem[a].header.size;
      NothingDiffers(mem, filed.Keys);
      WriteTag(a, mem[a].header.(free := true), h, mem0, filed0, a, {});
      assert {} + {a} == {a};
      size := CoalesceForward(a, size, h, mem0, filed0);
      var header;
      header, size := CoalesceBackward(a, size, h, mem0, filed0);
      FileCoalesced(header, size, h, mem0, filed0, ptr);
      hide Inv;
      ReleaseIsStep(h, ptr);
    }

    /** Tells the next block about the coalesced one, and files it. */
    method FileCoalesced(header: nat, size: nat, ghost h: Heap, ghost mem0: Memory, ghost filed0: Filed, ghost ptr: nat)
      requires CanFree(h, ptr) && Freeing(h, mem0, filed0, ptr - HEADER_SIZE, {ptr - HEADER_SIZE, header})
      requires var a, n := ptr - HEADER_SIZE, After(h, ptr - HEADER_SIZE);
               && header + size == (if IsFree(h, n) then After(h, n) else n)
               && (FreeBefore(h, header, a) || (header == a && forall p :: !FreeBefore(h, p, a)))
               && filed == filed0 - {n, header}
      requires HasHeader(mem0, header) && HasHeader(mem, header)
      requires mem[header].header == mem0[header].header.(size := size, free := true)
      modifies `mem, `flBitmap, `slBitmaps, `freeLists, `lists, `filed, `blocks
      ensures Valid()
      ensures TheHeap() == Release(h, ptr) && PayloadsKept(h, {ptr - HEADER_SIZE}, mem0, mem)
    {
      hide Mapping, Chain, HeadersOk, IndexOk, FilesFreeBlocks, OnlyNodesDiffer, PayloadsKept, DiffersIn;
      hide PrevTagOk, NoAdjacentFree, Release, Coalesced, InPayload;
      ghost var a := ptr - HEADER_SIZE;
      var next := header + size;
      HiIsTag(h, a, header, next);
      TagUntouched(h, mem0, mem, {a, header}, filed0, next);
      WriteTag(next, mem[next].header.(prevPhysSize := size, prevFree := true), h, mem0, filed0, a, {a, header});
      assert {a, header} + {next} == {a, header, next};

      ghost var mem1, filed1 := mem, filed;
      CoalesceReady(mem0, mem, filed0, filed, h, ptr, header, next);
      blocks := Coalesced(h, header, next).blocks;
      CoalescedBounds(h, header, next);
      Insert(header, size);
      CoalesceDone(mem0, mem1, mem, filed0, filed1, h, ptr, header, next);
    }

    static lemma NoStep(h: Heap)
      ensures Step(h, h)
    {
    }

    static lemma ReleaseIsStep(h: Heap, ptr: nat)
      requires CanFree(h, ptr)
      ensures Step(h, Release(h, ptr))
    {
      hide Release;
    }

    /** Nothing live: one free block spans the heap, and bitmaps and list heads are those `init` set. */
    lemma NothingLiveIsAsInitialised()
      requires Valid() && forall a :: a in blocks ==> blocks[a].Free?
      ensures IsInitial(TheHeap())
      ensures heapEnd - heapStart > 0
      ensures TheIndex() == SingleIndex(Mapping(heapEnd - heapStart), heapStart)
    {
      hide Mapping, HeadersOk, IndexOk;
      NothingLiveIsInitial(TheHeap());
      var size := heapEnd - heapStart;
      forall a: nat ensures a in filed <==> a == heapStart { assert FiledAt(filed, TheHeap(), a); }
      assert FiledAt(filed, TheHeap(), heapStart);
      assert filed == map[heapStart := Mapping(size)];
      SingleIndexUnique(mem, TheIndex(), lists, Mapping(size), heapStart);
    }

    /** A fresh heap below 16 MiB serves a request exactly when the alignment and the payload fit it. */
    lemma FreshHeapServes(size: nat, align: nat)
      requires Valid() && IsInitial(TheHeap()) && heapEnd - heapStart < CLASS_LIMIT && Requestable(size, align)
      ensures Exhausted(TheHeap(), freeLists, Needed(size, align)) <==>
              size + (if align < 8 then 8 else align) > heapEnd - heapStart
    {
      hide Mapping, HeadersOk, IndexOk, Needed, Requestable, FilesFreeBlocks;
      var n := heapEnd - heapStart;
      NeededBounds(size, align);
      NeededFits(size, align, n);
      FreshExhausted(Needed(size, align));
    }

    lemma FreshExhausted(needed: nat)
      requires Valid() && IsInitial(TheHeap()) && heapEnd - heapStart < CLASS_LIMIT && needed >= MIN_BLOCK_SIZE
      ensures Exhausted(TheHeap(), freeLists, needed) <==> needed > heapEnd - heapStart
    {
      hide Mapping, HeadersOk, IndexOk, FilesFreeBlocks, Chain;
      var n := heapEnd - heapStart;
      NothingLiveIsAsInitialised();
      if needed <= n {
        assert IsFree(TheHeap(), heapStart) && blocks[heapStart].size == n;
        PassedOverBelow16MiB(heapStart, needed);
        SingleHead(Mapping(n), heapStart);
      }
    }

    static lemma SingleHead(b: Bucket, x: nat)
      requires b.InRange()
      ensures SingleIndex(b, x).heads[b.fl][b.sl] == Some(x)
    {
    }

    /** In any state of a heap below 16 MiB: a request fails if no free block holds the alignment and the
        payload, and succeeds if some free block is twice as large as they need. */
    lemma MallocWindow(size: nat, align: nat)
      requires Valid() && heapEnd - heapStart < CLASS_LIMIT && Requestable(size, align)
      ensures !Exhausted(TheHeap(), freeLists, Needed(size, align)) ==>
                exists x :: IsFree(TheHeap(), x) && blocks[x].size >= size + (if align < 8 then 8 else align)
      ensures (exists x :: IsFree(TheHeap(), x) && blocks[x].size >= 2 * Max(32, size + Max(align, 8) + 7)) ==>
                !Exhausted(TheHeap(), freeLists, Needed(size, align))
    {
      hide Mapping, HeadersOk, IndexOk, Needed, Requestable, FilesFreeBlocks, Chain;
      var needed := Needed(size, align);
      NeededBounds(size, align);
      if x :| IsFree(TheHeap(), x) && blocks[x].size >= 2 * Max(32, size + Max(align, 8) + 7) {
        PassedOverBelow16MiB(x, needed);
        BlockBelowLimit(TheHeap(), x);
        TwiceIsHigher(needed, blocks[x].size);
      }
    }

    static lemma BlockBelowLimit(h: Heap, x: nat)
      requires Inv(h) && x in h.blocks
      ensures h.blocks[x].size <= h.end - h.start
    {
      Facts(h, x);
    }

    /** On heaps below 16 MiB, `malloc` fails exactly when every free block that is large enough sits
        in the bucket of `needed` itself, behind a smaller head. */
    lemma ExhaustedBelow16MiB(needed: nat)
      requires Valid() && heapEnd - heapStart < CLASS_LIMIT && needed >= MIN_BLOCK_SIZE
      ensures Exhausted(TheHeap(), freeLists, needed) <==>
              forall x :: IsFree(TheHeap(), x) && blocks[x].size >= needed ==>
                            blocks[x].size > 0 && BehindSmallerHead(x, needed)
    {
      hide Mapping, HeadersOk, IndexOk, Chain;
      forall x | IsFree(TheHeap(), x) && blocks[x].size >= needed
        ensures blocks[x].size > 0 && (PassedOver(TheHeap(), freeLists, x, needed) <==> BehindSmallerHead(x, needed))
      {
        PassedOverBelow16MiB(x, needed);
      }
    }

    /** `x` is filed with requests of `needed` bytes, and its list starts with a block too small for them. */
    ghost predicate BehindSmallerHead(x: nat, needed: nat)
      requires x in blocks && blocks[x].size > 0 && needed > 0
      reads this
    {
      Mapping(blocks[x].size) == Mapping(needed) && HeadBelow(TheHeap(), freeLists, Mapping(needed), needed)
    }

    lemma PassedOverBelow16MiB(x: nat, needed: nat)
      requires Valid() && heapEnd - heapStart < CLASS_LIMIT && needed >= MIN_BLOCK_SIZE
      requires IsFree(TheHeap(), x) && blocks[x].size >= needed
      ensures blocks[x].size > 0
      ensures PassedOver(TheHeap(), freeLists, x, needed) <==> BehindSmallerHead(x, needed)
    {
      hide Mapping, HeadersOk, BucketOk, FirstLevelOk;
      Facts(TheHeap(), x);
      var c := Mapping(blocks[x].size);
      MappingMonotone(needed, blocks[x].size);
      assert FiledAt(filed, TheHeap(), x);
      HeadOfBucket(mem, TheIndex(), lists, filed, c);
      var head := freeLists[c.fl][c.sl].value;
      assert FiledAt(filed, TheHeap(), head);
      Facts(TheHeap(), head);
      if blocks[head].size <= needed { MappingMonotone(blocks[head].size, needed); }
    }
  }
}
