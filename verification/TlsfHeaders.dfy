/** Boundary tags: the header words in memory agree with the physical chain of blocks. */
module TlsfHeaders {
  import opened TlsfMapping
  import opened TlsfMemory
  import opened TlsfHeap
  import opened TlsfIndex

  predicate HasHeader(mem: Memory, a: nat) {
    a in mem && mem[a].HeaderWord?
  }

  /** The tag of the block before `a`: its size and whether it is free. */
  ghost predicate PrevTagOk(h: Heap, a: nat, tag: Header) {
    if a == h.start then
      tag.prevPhysSize == 0 && !tag.prevFree
    else
      && tag.prevPhysSize <= a
      && a - tag.prevPhysSize in h.blocks
      && After(h, a - tag.prevPhysSize) == a
      && tag.prevFree == IsFree(h, a - tag.prevPhysSize)
  }

  ghost predicate HeaderAt(mem: Memory, h: Heap, a: nat)
    requires a in h.blocks
  {
    && HasHeader(mem, a)
    && mem[a].header.size == h.blocks[a].size
    && mem[a].header.free == h.blocks[a].Free?
    && PrevTagOk(h, a, mem[a].header)
  }

  /** The sentinel after the last block: size 0, in use, with the last block's tag. */
  ghost predicate SentinelOk(mem: Memory, h: Heap) {
    && HasHeader(mem, h.end)
    && mem[h.end].header.size == 0
    && !mem[h.end].header.free
    && PrevTagOk(h, h.end, mem[h.end].header)
  }

  ghost predicate HeadersOk(mem: Memory, h: Heap) {
    && (forall a {:trigger HeaderAt(mem, h, a)} :: a in h.blocks ==> HeaderAt(mem, h, a))
    && SentinelOk(mem, h)
  }

  /** Header words are the block starts and the sentinel. */
  ghost predicate IsTag(h: Heap, a: nat) {
    a in h.blocks || a == h.end
  }

  lemma HeadersFrame(mem: Memory, mem': Memory, h: Heap)
    requires HeadersOk(mem, h)
    requires forall a: nat :: IsTag(h, a) && a in mem ==> a in mem' && mem'[a] == mem[a]
    ensures HeadersOk(mem', h)
  {
    forall a | a in h.blocks ensures HeaderAt(mem', h, a) {
      assert HeaderAt(mem, h, a);
      assert IsTag(h, a);
    }
    assert IsTag(h, h.end);
  }

  lemma InitialHeaders(mem: Memory, h: Heap)
    requires IsInitial(h)
    requires HasHeader(mem, h.start) && mem[h.start].header == Header(0, h.end - h.start, true, false)
    requires HasHeader(mem, h.end) && mem[h.end].header == Header(h.end - h.start, 0, false, true)
    ensures HeadersOk(mem, h)
  {
  }

  // ---------------------------------------------------------------- spacing

  lemma BlocksApart(h: Heap, a: nat, b: nat)
    requires Chain(h) && IsTag(h, a) && IsTag(h, b) && a != b
    ensures Apart(a, b)
  {
    if a in h.blocks { Facts(h, a); }
    if b in h.blocks { Facts(h, b); }
    if a in h.blocks && b in h.blocks { Disjoint(h, a, b); }
  }

  /** Node words of the blocks in `s`. */
  ghost predicate IsNodeWord(s: set<nat>, w: nat) {
    (w >= 8 && w - 8 in s) || (w >= 16 && w - 16 in s)
  }

  /** The two memories differ at most in node words of blocks in `s`. */
  ghost predicate OnlyNodesDiffer(mem: Memory, mem': Memory, s: set<nat>) {
    forall w :: !IsNodeWord(s, w) ==> (w in mem <==> w in mem') && (w in mem ==> mem'[w] == mem[w])
  }

  lemma TagIsNotNodeWord(h: Heap, s: set<nat>, a: nat)
    requires Chain(h) && IsTag(h, a)
    requires forall x :: x in s ==> x in h.blocks
    ensures !IsNodeWord(s, a)
  {
    if a >= 8 && a - 8 in s { BlocksApart(h, a, a - 8); }
    if a >= 16 && a - 16 in s { BlocksApart(h, a, a - 16); }
  }

  /** List surgery on free blocks leaves all tags alone. */
  lemma HeadersSurviveNodes(mem: Memory, mem': Memory, h: Heap, s: set<nat>)
    requires Chain(h) && HeadersOk(mem, h) && OnlyNodesDiffer(mem, mem', s)
    requires forall x :: x in s ==> x in h.blocks
    ensures HeadersOk(mem', h)
  {
    hide HeadersOk, Chain;
    forall a | IsTag(h, a) && a in mem ensures a in mem' && mem'[a] == mem[a] {
      TagIsNotNodeWord(h, s, a);
    }
    HeadersFrame(mem, mem', h);
  }

  // ---------------------------------------------------------------- free: one region becomes one block

  /** The blocks from `lo` up to `hi` replaced by a single free block. */
  ghost function Coalesced(h: Heap, lo: nat, hi: nat): Heap
    requires lo <= hi
  {
    h.(blocks := (map x | x in h.blocks && !(lo <= x < hi) :: h.blocks[x])[lo := Free(hi - lo)])
  }

  lemma CoalescedPrevTag(h: Heap, lo: nat, hi: nat, x: nat, tag: Header)
    requires Chain(h) && lo in h.blocks && IsTag(h, hi) && lo < hi
    requires IsTag(h, x) && PrevTagOk(h, x, tag) && (x <= lo || x > hi)
    ensures PrevTagOk(Coalesced(h, lo, hi), x, tag)
  {
    hide Chain;
    if x != h.start {
      var q := x - tag.prevPhysSize;
      Facts(h, q);
      Facts(h, lo);
      if x > hi && q < hi {
        if hi in h.blocks {
          Disjoint(h, q, hi);
        } else if x in h.blocks {
          Facts(h, x);
        }
        assert false;
      }
    }
  }

  /** The tags `free` writes are right for the coalesced heap. */
  lemma CoalescedHeaders(mem: Memory, mem': Memory, h: Heap, lo: nat, hi: nat)
    requires Chain(h) && HeadersOk(mem, h) && lo in h.blocks && IsTag(h, hi) && lo < hi
    requires HasHeader(mem, lo) && HasHeader(mem', lo)
    requires mem'[lo].header == mem[lo].header.(size := hi - lo, free := true)
    requires HasHeader(mem, hi) && HasHeader(mem', hi)
    requires mem'[hi].header == mem[hi].header.(prevPhysSize := hi - lo, prevFree := true)
    requires forall a: nat :: IsTag(h, a) && (a < lo || a > hi) && a in mem ==> a in mem' && mem'[a] == mem[a]
    ensures HeadersOk(mem', Coalesced(h, lo, hi))
  {
    hide Chain, PrevTagOk;
    var h' := Coalesced(h, lo, hi);
    if lo > h.start { } else { Facts(h, lo); }
    assert PrevTagOk(h', hi, mem'[hi].header) by { HiTag(h, lo, hi, mem'[hi].header); }
    forall a | a in h'.blocks ensures HeaderAt(mem', h', a) {
      assert a in h.blocks && HeaderAt(mem, h, a) && IsTag(h, a);
      if a != hi {
        CoalescedPrevTag(h, lo, hi, a, mem[a].header);
        if a == lo { PrevTagOnly(h', lo, mem[lo].header, mem'[lo].header); }
      }
    }
    assert IsTag(h, h.end);
    if hi != h.end {
      Facts(h, hi);
      CoalescedPrevTag(h, lo, hi, h.end, mem[h.end].header);
    }
  }

  lemma PrevTagOnly(h: Heap, a: nat, tag: Header, tag': Header)
    requires PrevTagOk(h, a, tag) && tag'.prevPhysSize == tag.prevPhysSize && tag'.prevFree == tag.prevFree
    ensures PrevTagOk(h, a, tag')
  {
  }

  lemma HiTag(h: Heap, lo: nat, hi: nat, tag: Header)
    requires Chain(h) && lo in h.blocks && IsTag(h, hi) && lo < hi
    requires tag.prevPhysSize == hi - lo && tag.prevFree
    ensures PrevTagOk(Coalesced(h, lo, hi), hi, tag)
  {
    Facts(h, lo);
  }

  // ---------------------------------------------------------------- what free reads from the tags

  /** The tag says whether a free block ends at `a`, and where it starts. */
  lemma PrevTagFindsFreeBefore(h: Heap, a: nat, tag: Header)
    requires Chain(h) && a in h.blocks && PrevTagOk(h, a, tag)
    ensures tag.prevFree ==> tag.prevPhysSize <= a && FreeBefore(h, a - tag.prevPhysSize, a)
    ensures !tag.prevFree ==> forall p :: !FreeBefore(h, p, a)
  {
    if !tag.prevFree {
      forall p ensures !FreeBefore(h, p, a) {
        if FreeBefore(h, p, a) {
          Facts(h, p);
          if a == h.start {
            assert false;
          } else {
            var q := a - tag.prevPhysSize;
            Facts(h, q);
            Disjoint(h, p, q);
            assert false;
          }
        }
      }
    }
  }

  lemma MergeNextIsCoalesced(h: Heap, a: nat, hi: nat)
    requires Chain(h) && a in h.blocks
    requires var n := After(h, a); hi == if IsFree(h, n) then After(h, n) else n
    ensures a < hi && IsTag(h, hi)
    ensures MergeNext(h, a) == Coalesced(h, a, hi)
  {
    hide Chain;
    Facts(h, a);
    var n := After(h, a);
    if IsFree(h, n) { Facts(h, n); }
    forall x | x in h.blocks && a <= x < hi ensures x == a || (x == n && IsFree(h, n)) {
      Disjoint(h, a, x);
      if n in h.blocks { Disjoint(h, n, x); }
    }
    assert MergeNext(h, a).blocks == Coalesced(h, a, hi).blocks;
  }

  lemma MergePrevIsCoalesced(h: Heap, a: nat, lo: nat, hi: nat)
    requires Chain(h) && a in h.blocks && IsTag(h, hi) && a < hi
    requires FreeBefore(h, lo, a)
    ensures lo < a && MergePrev(Coalesced(h, a, hi), a) == Coalesced(h, lo, hi)
  {
    hide Chain;
    var h1 := Coalesced(h, a, hi);
    Facts(h, lo);
    assert FreeBefore(h1, lo, a);
    forall p | FreeBefore(h1, p, a) ensures p == lo {
      Facts(h, p);
      Disjoint(h, p, lo);
    }
    forall x | x in h.blocks && lo <= x < a ensures x == lo {
      Disjoint(h, lo, x);
    }
    assert MergePrev(h1, a).blocks == Coalesced(h, lo, hi).blocks;
  }

  lemma NoMergePrev(h: Heap, a: nat, hi: nat)
    requires Chain(h) && a in h.blocks && a < hi
    requires forall p :: !FreeBefore(h, p, a)
    ensures MergePrev(Coalesced(h, a, hi), a) == Coalesced(h, a, hi)
  {
    var h1 := Coalesced(h, a, hi);
    forall p ensures !FreeBefore(h1, p, a) {
      assert !FreeBefore(h, p, a);
    }
  }

  /** The region `free` coalesces is the abstract release. */
  lemma ReleaseIsCoalesced(h: Heap, ptr: nat, lo: nat, hi: nat)
    requires Chain(h) && CanFree(h, ptr)
    requires var a := ptr - HEADER_SIZE;
             var n := After(h, a);
             && hi == (if IsFree(h, n) then After(h, n) else n)
             && (FreeBefore(h, lo, a) || (lo == a && forall p :: !FreeBefore(h, p, a)))
    ensures lo < hi && IsTag(h, hi) && Release(h, ptr) == Coalesced(h, lo, hi)
  {
    hide Chain;
    var a := ptr - HEADER_SIZE;
    MergeNextIsCoalesced(h, a, hi);
    if FreeBefore(h, lo, a) {
      MergePrevIsCoalesced(h, a, lo, hi);
    } else {
      NoMergePrev(h, a, hi);
    }
  }

  // ---------------------------------------------------------------- malloc: a free block is taken, perhaps split

  lemma TakenHeaders(mem: Memory, mem': Memory, h: Heap, b: nat, u: Block)
    requires Chain(h) && HeadersOk(mem, h) && IsFree(h, b) && u.Used? && u.size == h.blocks[b].size
    requires var n := After(h, b);
             && HasHeader(mem, b) && HasHeader(mem', b) && HasHeader(mem, n) && HasHeader(mem', n)
             && mem'[b].header == mem[b].header.(free := false)
             && mem'[n].header == mem[n].header.(prevFree := false)
    requires forall a: nat :: IsTag(h, a) && a != b && a != After(h, b) && a in mem ==> a in mem' && mem'[a] == mem[a]
    ensures HeadersOk(mem', h.(blocks := h.blocks[b := u]))
  {
    hide Chain, PrevTagOk;
    var h' := h.(blocks := h.blocks[b := u]);
    Facts(h, b);
    forall a: nat | IsTag(h, a) && HasHeader(mem, a) && PrevTagOk(h, a, mem[a].header)
      ensures HasHeader(mem', a) && PrevTagOk(h', a, mem'[a].header)
    {
      TakenPrevTag(mem, mem', h, b, u, a);
    }
    forall a | a in h'.blocks ensures HeaderAt(mem', h', a) {
      assert HeaderAt(mem, h, a) && IsTag(h, a);
    }
    assert IsTag(h, h.end);
  }

  lemma TakenPrevTag(mem: Memory, mem': Memory, h: Heap, b: nat, u: Block, a: nat)
    requires Chain(h) && IsFree(h, b) && u.Used? && u.size == h.blocks[b].size
    requires var n := After(h, b);
             && HasHeader(mem, b) && HasHeader(mem', b) && HasHeader(mem, n) && HasHeader(mem', n)
             && mem'[b].header == mem[b].header.(free := false)
             && mem'[n].header == mem[n].header.(prevFree := false)
    requires IsTag(h, a) && HasHeader(mem, a) && PrevTagOk(h, a, mem[a].header)
    requires a != b && a != After(h, b) ==> a in mem' && mem'[a] == mem[a]
    ensures HasHeader(mem', a) && PrevTagOk(h.(blocks := h.blocks[b := u]), a, mem'[a].header)
  {
    hide Chain;
    var n := After(h, b);
    Facts(h, b);
    if a != h.start {
      var q := a - mem[a].header.prevPhysSize;
      Facts(h, q);
      if q == b {
        assert a == n;
      } else {
        Disjoint(h, q, b);
        assert a != n;
      }
    }
  }

  lemma SplitHeaders(mem: Memory, mem': Memory, h: Heap, b: nat, u: Block)
    requires Chain(h) && HeadersOk(mem, h) && IsFree(h, b) && u.Used? && 0 < u.size < h.blocks[b].size
    requires var n := After(h, b);
             var r := b + u.size;
             && HasHeader(mem, b) && HasHeader(mem', b) && HasHeader(mem, n) && HasHeader(mem', n) && HasHeader(mem', r)
             && mem'[b].header == mem[b].header.(size := u.size, free := false)
             && mem'[r].header == Header(u.size, n - r, true, false)
             && mem'[n].header == mem[n].header.(prevPhysSize := n - r, prevFree := true)
    requires forall a: nat :: IsTag(h, a) && a != b && a != After(h, b) && a in mem ==> a in mem' && mem'[a] == mem[a]
    ensures HeadersOk(mem', h.(blocks := h.blocks[b := u][b + u.size := Free(h.blocks[b].size - u.size)]))
  {
    hide Chain, PrevTagOk;
    var r := b + u.size;
    var h' := h.(blocks := h.blocks[b := u][r := Free(h.blocks[b].size - u.size)]);
    var n := After(h, b);
    Facts(h, b);
    if r in h.blocks { Disjoint(h, b, r); assert false; }
    RemainderTag(h, h', b, u);
    forall a: nat | IsTag(h, a) && HasHeader(mem, a) && PrevTagOk(h, a, mem[a].header)
      ensures HasHeader(mem', a) && PrevTagOk(h', a, mem'[a].header)
    {
      SplitPrevTag(mem, mem', h, b, u, a);
    }
    forall a | a in h'.blocks ensures HeaderAt(mem', h', a) {
      if a != r { assert HeaderAt(mem, h, a) && IsTag(h, a); }
    }
    assert IsTag(h, h.end);
  }

  /** The remainder's own tag describes the allocated block before it. */
  lemma RemainderTag(h: Heap, h': Heap, b: nat, u: Block)
    requires Chain(h) && IsFree(h, b) && u.Used? && 0 < u.size < h.blocks[b].size
    requires h' == h.(blocks := h.blocks[b := u][b + u.size := Free(h.blocks[b].size - u.size)])
    ensures PrevTagOk(h', b + u.size, Header(u.size, h.blocks[b].size - u.size, true, false))
  {
    hide Chain;
    Facts(h, b);
  }

  lemma SplitPrevTag(mem: Memory, mem': Memory, h: Heap, b: nat, u: Block, a: nat)
    requires Chain(h) && IsFree(h, b) && u.Used? && 0 < u.size < h.blocks[b].size && b + u.size !in h.blocks
    requires var n := After(h, b);
             && HasHeader(mem, b) && HasHeader(mem', b) && HasHeader(mem, n) && HasHeader(mem', n)
             && mem'[b].header == mem[b].header.(size := u.size, free := false)
             && mem'[n].header == mem[n].header.(prevPhysSize := n - (b + u.size), prevFree := true)
    requires IsTag(h, a) && HasHeader(mem, a) && PrevTagOk(h, a, mem[a].header)
    requires a != b && a != After(h, b) ==> a in mem' && mem'[a] == mem[a]
    ensures HasHeader(mem', a)
    ensures PrevTagOk(h.(blocks := h.blocks[b := u][b + u.size := Free(h.blocks[b].size - u.size)]), a, mem'[a].header)
  {
    hide Chain;
    var n := After(h, b);
    Facts(h, b);
    if a != h.start {
      var q := a - mem[a].header.prevPhysSize;
      Facts(h, q);
      if q == b {
        assert a == n;
      } else {
        Disjoint(h, q, b);
        assert a != n;
      }
    }
  }

  // ---------------------------------------------------------------- the index files exactly the free blocks

  ghost predicate FiledAt(filed: Filed, h: Heap, a: nat) {
    && (a in filed <==> IsFree(h, a))
    && (a in filed ==> h.blocks[a].size > 0 && filed[a] == Mapping(h.blocks[a].size))
  }

  /** Every free block is filed under the class of its size, and nothing else is filed. */
  ghost predicate FilesFreeBlocks(filed: Filed, h: Heap) {
    forall a: nat {:trigger FiledAt(filed, h, a)} :: FiledAt(filed, h, a)
  }

  /** Coalescing `[lo, hi)` refiles one block and unfiles every other block of the region. */
  lemma FiledAfterCoalesce(filed: Filed, filed': Filed, h: Heap, lo: nat, hi: nat)
    requires FilesFreeBlocks(filed, h) && lo < hi
    requires forall a: nat :: a in filed' <==> a in filed && !(lo <= a < hi)
    requires forall a: nat :: a in filed' ==> filed'[a] == filed[a]
    ensures FilesFreeBlocks(filed'[lo := Mapping(hi - lo)], Coalesced(h, lo, hi))
  {
    hide Mapping;
    var after, h' := filed'[lo := Mapping(hi - lo)], Coalesced(h, lo, hi);
    forall a: nat ensures FiledAt(after, h', a) {
      assert FiledAt(filed, h, a);
    }
  }
}
