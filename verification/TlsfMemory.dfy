/** Heap memory as the TLSF allocator sees it: 8-byte words holding block headers, free-list links
    or user data, and the doubly linked free lists threaded through the words of free blocks. */
module TlsfMemory {
  import opened Bits
  import opened TlsfMapping
  import opened Options
  import opened FreeLists

  /** A block header. `size_and_flags` is kept unpacked; `Pack` gives the stored word. */
  datatype Header = Header(prevPhysSize: nat, size: nat, free: bool, prevFree: bool)

  /** One 8-byte word: a header, an `Option<NonNull<BlockHeader>>` link, or anything a user stored. */
  datatype Word = HeaderWord(header: Header) | LinkWord(link: Option<nat>) | DataWord(bits: nat)

  /** Memory by word address. */
  type Memory = map<nat, Word>

  // ---------------------------------------------------------------- the packed header word

  /** The word `BlockHeader::set` stores: the size with the two flags in its low bits. */
  function Pack(size: nat, free: bool, prevFree: bool): nat {
    Or(Or(size, if free then 1 else 0), if prevFree then 2 else 0)
  }

  function PackedSize(w: nat): nat
    requires 3 < Pow2(32)
  {
    And(w, Not(3, 32))
  }

  predicate PackedIsFree(w: nat) {
    And(w, 1) != 0
  }

  predicate PackedPrevIsFree(w: nat) {
    And(w, 2) != 0
  }

  function PackedMarkFree(w: nat, free: bool): nat
    requires 1 < Pow2(32)
  {
    if free then Or(w, 1) else And(w, Not(1, 32))
  }

  function PackedMarkPrevFree(w: nat, prevFree: bool): nat
    requires 2 < Pow2(32)
  {
    if prevFree then Or(w, 2) else And(w, Not(2, 32))
  }

  lemma LowBits(a: nat, free: bool, prevFree: bool)
    ensures var w := 4 * a + (if free then 1 else 0) + (if prevFree then 2 else 0);
            && And(w, 1) == (if free then 1 else 0)
            && And(w, 2) == (if prevFree then 2 else 0)
            && Or(w, 1) == 4 * a + 1 + (if prevFree then 2 else 0)
            && Or(w, 2) == 4 * a + (if free then 1 else 0) + 2
  {
    var w := 4 * a + (if free then 1 else 0) + (if prevFree then 2 else 0);
    assert w / 2 == 2 * a + (if prevFree then 1 else 0);
    assert w / 2 / 2 == a;
    assert And(w / 2, 1) == if prevFree then 1 else 0;
    assert Or(w / 2, 0) == w / 2;
    assert Or(w / 2, 1) == 2 * a + 1;
  }

  lemma PackValue(size: nat, free: bool, prevFree: bool)
    requires size % 4 == 0
    ensures Pack(size, free, prevFree) == size + (if free then 1 else 0) + (if prevFree then 2 else 0)
  {
    LowBits(size / 4, false, false);
    LowBits(size / 4, free, false);
  }

  /** The getters recover exactly what `set` packed, for any 4-aligned size below 4 GiB. */
  lemma PackRoundTrip(size: nat, free: bool, prevFree: bool)
    requires size % 4 == 0 && size < 0x1_0000_0000
    ensures Pow2(32) == 0x1_0000_0000
    ensures PackedSize(Pack(size, free, prevFree)) == size
    ensures PackedIsFree(Pack(size, free, prevFree)) == free
    ensures PackedPrevIsFree(Pack(size, free, prevFree)) == prevFree
  {
    hide And, Or, Pow2, Pack, Not;
    Pow2Values();
    PackValue(size, free, prevFree);
    LowBits(size / 4, free, prevFree);
    SizeBits(size, free, prevFree, Pack(size, free, prevFree));
  }

  lemma Pow2Two()
    ensures Pow2(2) == 4
  {
    assert Pow2(1) == 2;
  }

  lemma LowTwoBits(w: nat)
    ensures Low(w, 2) == w % 4
  {
    assert Low(w / 2, 1) == w / 2 % 2;
  }

  lemma SizeBits(size: nat, free: bool, prevFree: bool, w: nat)
    requires size % 4 == 0 && w < Pow2(32) && 3 < Pow2(32)
    requires w == size + (if free then 1 else 0) + (if prevFree then 2 else 0)
    ensures And(w, Not(3, 32)) == size
  {
    hide *;
    Pow2Two();
    AndHighMask(w, 2, 32);
    LowTwoBits(w);
  }

  /** `mark_free` and `mark_prev_free` change one flag of the packed word and nothing else. */
  lemma MarkOnPackedWord(size: nat, free: bool, prevFree: bool, flag: bool)
    requires size % 4 == 0 && size < 0x1_0000_0000
    ensures Pow2(32) == 0x1_0000_0000
    ensures PackedMarkFree(Pack(size, free, prevFree), flag) == Pack(size, flag, prevFree)
    ensures PackedMarkPrevFree(Pack(size, free, prevFree), flag) == Pack(size, free, flag)
  {
    Pow2Values();
    PackValue(size, free, prevFree);
    MarkFreeValue(size, free, prevFree, Pack(size, free, prevFree), flag);
    PackValue(size, flag, prevFree);
    MarkPrevFreeValue(size, free, prevFree, Pack(size, free, prevFree), flag);
    PackValue(size, free, flag);
  }

  lemma MarkFreeValue(size: nat, free: bool, prevFree: bool, w: nat, flag: bool)
    requires size % 4 == 0 && w < Pow2(32) && 1 < Pow2(32)
    requires w == size + (if free then 1 else 0) + (if prevFree then 2 else 0)
    ensures PackedMarkFree(w, flag) == size + (if flag then 1 else 0) + (if prevFree then 2 else 0)
  {
    hide And, Or, Not, Pow2;
    LowBits(size / 4, free, prevFree);
    AndSplit(w, 1, 32);
  }

  lemma MarkPrevFreeValue(size: nat, free: bool, prevFree: bool, w: nat, flag: bool)
    requires size % 4 == 0 && w < Pow2(32) && 2 < Pow2(32)
    requires w == size + (if free then 1 else 0) + (if prevFree then 2 else 0)
    ensures PackedMarkPrevFree(w, flag) == size + (if free then 1 else 0) + (if flag then 2 else 0)
  {
    hide And, Or, Not, Pow2;
    LowBits(size / 4, free, prevFree);
    AndSplit(w, 2, 32);
  }

  // ---------------------------------------------------------------- free lists in memory

  /** Blocks far enough apart that their first four words do not overlap. */
  predicate Apart(a: nat, b: nat) {
    a + MIN_BLOCK_SIZE <= b || b + MIN_BLOCK_SIZE <= a
  }

  /** The `FreeNode` after the header at `b`. */
  ghost predicate NodeIs(mem: Memory, b: nat, prev: Option<nat>, next: Option<nat>) {
    && b + 8 in mem && mem[b + 8] == LinkWord(prev)
    && b + 16 in mem && mem[b + 16] == LinkWord(next)
  }

  /** Position `i` of `list` has the right links in memory. */
  ghost predicate LinkedAt(mem: Memory, list: seq<nat>, i: nat)
    requires i < |list|
  {
    NodeIs(mem, list[i], PrevOf(list, i), NextOf(list, i))
  }

  /** The links in memory are those of `list`, in both directions. */
  ghost predicate Linked(mem: Memory, list: seq<nat>) {
    forall i: nat :: i < |list| ==> LinkedAt(mem, list, i)
  }

  /** All elements of `list` are pairwise apart. */
  ghost predicate Spread(list: seq<nat>) {
    forall i: nat, j: nat :: i < j < |list| ==> Apart(list[i], list[j])
  }

  ghost predicate ApartFromAll(b: nat, list: seq<nat>) {
    forall i: nat :: i < |list| ==> Apart(b, list[i])
  }

  /** The node words of `b` are the same in both memories. */
  ghost predicate SameNode(mem: Memory, mem': Memory, b: nat) {
    && (b + 8 in mem ==> b + 8 in mem' && mem'[b + 8] == mem[b + 8])
    && (b + 16 in mem ==> b + 16 in mem' && mem'[b + 16] == mem[b + 16])
  }

  lemma LinkedFrame(mem: Memory, mem': Memory, list: seq<nat>)
    requires Linked(mem, list)
    requires forall i: nat :: i < |list| ==> SameNode(mem, mem', list[i])
    ensures Linked(mem', list)
  {
    forall i: nat | i < |list| ensures LinkedAt(mem', list, i) {
      assert SameNode(mem, mem', list[i]);
      assert LinkedAt(mem, list, i);
    }
  }

  /** The memory writes of `insert`: the new node, then the old head's `prev`. */
  function LinkFront(mem: Memory, b: nat, head: Option<nat>): Memory {
    var m := mem[b + 8 := LinkWord(None)][b + 16 := LinkWord(head)];
    if head.None? then m else m[head.value + 8 := LinkWord(Some(b))]
  }

  lemma LinkFrontCorrect(mem: Memory, b: nat, list: seq<nat>)
    requires Linked(mem, list) && Spread(list) && ApartFromAll(b, list)
    ensures Linked(LinkFront(mem, b, Head(list)), [b] + list)
  {
    var mem' := LinkFront(mem, b, Head(list));
    var list' := [b] + list;
    forall i: nat | i < |list'| ensures LinkedAt(mem', list', i) {
      if i == 0 {
        if |list| > 0 { assert Apart(b, list[0]); }
      } else {
        assert list'[i] == list[i - 1];
        assert LinkedAt(mem, list, i - 1);
        assert Apart(b, list[i - 1]);
        if i > 1 { assert Apart(list[0], list[i - 1]); }
      }
    }
  }

  /** The memory writes of `remove`: the neighbours' links around the node. */
  function Unlink(mem: Memory, prev: Option<nat>, next: Option<nat>): Memory {
    var m := if prev.None? then mem else mem[prev.value + 16 := LinkWord(next)];
    if next.None? then m else m[next.value + 8 := LinkWord(prev)]
  }

  lemma SpreadApart(list: seq<nat>, i: nat, j: nat)
    requires Spread(list) && i < |list| && j < |list| && i != j
    ensures Apart(list[i], list[j])
  {
    if j < i { assert Apart(list[j], list[i]); }
  }

  /** What `remove` leaves in the node at position `j` of the old list. */
  lemma UnlinkAt(mem: Memory, list: seq<nat>, i: nat, j: nat)
    requires Linked(mem, list) && Spread(list) && i < |list| && j < |list| && i != j
    ensures NodeIs(Unlink(mem, PrevOf(list, i), NextOf(list, i)), list[j],
                   if j == i + 1 then PrevOf(list, i) else PrevOf(list, j),
                   if j + 1 == i then NextOf(list, i) else NextOf(list, j))
  {
    assert LinkedAt(mem, list, j);
    if i > 0 && j != i - 1 { SpreadApart(list, i - 1, j); }
    if i + 1 < |list| && j != i + 1 { SpreadApart(list, i + 1, j); }
  }

  lemma UnlinkCorrect(mem: Memory, list: seq<nat>, i: nat)
    requires Linked(mem, list) && Spread(list) && i < |list|
    ensures Linked(Unlink(mem, PrevOf(list, i), NextOf(list, i)), Without(list, i))
  {
    var mem' := Unlink(mem, PrevOf(list, i), NextOf(list, i));
    var list' := Without(list, i);
    forall k: nat | k < |list'| ensures LinkedAt(mem', list', k) {
      var j := if k < i then k else k + 1;
      UnlinkAt(mem, list, i, j);
      assert list'[k] == list[j];
      assert PrevOf(list', k) == if j == i + 1 then PrevOf(list, i) else PrevOf(list, j);
      assert NextOf(list', k) == if j + 1 == i then NextOf(list, i) else NextOf(list, j);
    }
  }
}
