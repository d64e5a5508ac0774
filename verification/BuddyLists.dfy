/** The buddy allocator's free lists: one doubly linked list per order, threaded through the first two
    words of the first frame of each free run. */
module BuddyLists {
  import opened Options
  import opened FreeLists
  import opened BuddyBlocks

  /** `usize::MAX`, the end-of-list marker. */
  const NULL_LINK: nat := 0xFFFF_FFFF_FFFF_FFFF
  const FRAME_SIZE: nat := 4096

  /** Physical memory as the kernel maps it, by word address. */
  type Memory = map<nat, nat>

  /** The address of frame `idx` when frame 0 is mapped at `off`. */
  function FramePtr(off: nat, idx: nat): nat {
    off + FRAME_SIZE * idx
  }

  /** The word that stores a link. */
  function Encode(link: Option<nat>): nat {
    match link
    case None => NULL_LINK
    case Some(x) => x
  }

  ghost predicate NodeIs(mem: Memory, off: nat, x: nat, prev: Option<nat>, next: Option<nat>) {
    && FramePtr(off, x) in mem && mem[FramePtr(off, x)] == Encode(next)
    && FramePtr(off, x) + 8 in mem && mem[FramePtr(off, x) + 8] == Encode(prev)
  }

  ghost predicate LinkedAt(mem: Memory, off: nat, list: seq<nat>, i: nat)
    requires i < |list|
  {
    NodeIs(mem, off, list[i], PrevOf(list, i), NextOf(list, i))
  }

  ghost predicate Linked(mem: Memory, off: nat, list: seq<nat>) {
    forall i: nat :: i < |list| ==> LinkedAt(mem, off, list, i)
  }

  /** Indices that cannot be mistaken for the end-of-list marker. */
  ghost predicate Proper(list: seq<nat>) {
    forall x :: x in list ==> x < NULL_LINK
  }

  ghost predicate ListOk(mem: Memory, off: nat, heads: seq<Option<nat>>, lists: seq<seq<nat>>, k: nat)
    requires k < |heads| && k < |lists|
  {
    heads[k] == Head(lists[k]) && Linked(mem, off, lists[k]) && Distinct(lists[k]) && Proper(lists[k])
  }

  /** No index is in two lists. */
  ghost predicate Exclusive(lists: seq<seq<nat>>) {
    forall k: nat, m: nat, x: nat :: k < |lists| && m < |lists| && x in lists[k] && x in lists[m] ==> k == m
  }

  ghost predicate ListsOk(mem: Memory, off: nat, heads: seq<Option<nat>>, lists: seq<seq<nat>>) {
    && |heads| == MAX_ORDER + 1 && |lists| == MAX_ORDER + 1
    && Exclusive(lists)
    && forall k: nat {:trigger ListOk(mem, off, heads, lists, k)} :: k <= MAX_ORDER ==> ListOk(mem, off, heads, lists, k)
  }

  ghost predicate SameNode(mem: Memory, mem': Memory, off: nat, x: nat) {
    && (FramePtr(off, x) in mem ==> FramePtr(off, x) in mem' && mem'[FramePtr(off, x)] == mem[FramePtr(off, x)])
    && (FramePtr(off, x) + 8 in mem ==>
          FramePtr(off, x) + 8 in mem' && mem'[FramePtr(off, x) + 8] == mem[FramePtr(off, x) + 8])
  }

  lemma LinkedFrame(mem: Memory, mem': Memory, off: nat, list: seq<nat>)
    requires Linked(mem, off, list)
    requires forall i: nat :: i < |list| ==> SameNode(mem, mem', off, list[i])
    ensures Linked(mem', off, list)
  {
    forall i: nat | i < |list| ensures LinkedAt(mem', off, list, i) {
      assert SameNode(mem, mem', off, list[i]);
      assert LinkedAt(mem, off, list, i);
    }
  }

  /** Words of the first frame of runs in `s`. */
  ghost predicate IsLinkWord(off: nat, s: set<nat>, w: nat) {
    exists x :: x in s && (w == FramePtr(off, x) || w == FramePtr(off, x) + 8)
  }

  /** The memories differ at most in link words of `s`. */
  ghost predicate OnlyLinksDiffer(mem: Memory, mem': Memory, off: nat, s: set<nat>) {
    forall w: nat :: !IsLinkWord(off, s, w) ==> (w in mem <==> w in mem') && (w in mem ==> mem'[w] == mem[w])
  }

  // ---------------------------------------------------------------- insert

  /** The link writes of `insert_free`. */
  function LinkFront(mem: Memory, off: nat, x: nat, head: Option<nat>): Memory {
    var m := mem[FramePtr(off, x) := Encode(head)][FramePtr(off, x) + 8 := NULL_LINK];
    if head.None? then m else m[FramePtr(off, head.value) + 8 := x]
  }

  lemma LinkFrontCorrect(mem: Memory, off: nat, x: nat, list: seq<nat>)
    requires Linked(mem, off, list) && Distinct(list) && x !in list
    ensures Linked(LinkFront(mem, off, x, Head(list)), off, [x] + list)
  {
    var mem' := LinkFront(mem, off, x, Head(list));
    var list' := [x] + list;
    forall i: nat | i < |list'| ensures LinkedAt(mem', off, list', i) {
      if i > 0 {
        assert list'[i] == list[i - 1];
        assert LinkedAt(mem, off, list, i - 1);
        assert list[i - 1] in list;
      }
    }
  }

  lemma PushListOk(mem: Memory, off: nat, heads: seq<Option<nat>>, lists: seq<seq<nat>>, k: nat, x: nat, m: nat)
    requires ListsOk(mem, off, heads, lists) && k <= MAX_ORDER && m <= MAX_ORDER && x < NULL_LINK
    requires forall n: nat :: n <= MAX_ORDER ==> x !in lists[n]
    ensures ListOk(LinkFront(mem, off, x, Head(lists[k])), off, heads[k := Some(x)], lists[k := [x] + lists[k]], m)
  {
    hide Linked;
    assert ListOk(mem, off, heads, lists, k) && ListOk(mem, off, heads, lists, m);
    var mem' := LinkFront(mem, off, x, Head(lists[k]));
    if m == k {
      LinkFrontCorrect(mem, off, x, lists[k]);
    } else {
      forall i: nat | i < |lists[m]| ensures SameNode(mem, mem', off, lists[m][i]) {
        assert lists[m][i] in lists[m];
        if lists[k] != [] { assert lists[k][0] in lists[k]; }
      }
      LinkedFrame(mem, mem', off, lists[m]);
    }
  }

  /** `insert_free` puts one more run at the front of its order's list. */
  lemma PushOk(mem: Memory, off: nat, heads: seq<Option<nat>>, lists: seq<seq<nat>>, k: nat, x: nat)
    requires ListsOk(mem, off, heads, lists) && k <= MAX_ORDER && x < NULL_LINK
    requires forall n: nat :: n <= MAX_ORDER ==> x !in lists[n]
    ensures ListsOk(LinkFront(mem, off, x, Head(lists[k])), off, heads[k := Some(x)], lists[k := [x] + lists[k]])
    ensures OnlyLinksDiffer(mem, LinkFront(mem, off, x, Head(lists[k])), off,
                            {x} + Elements(lists[k]))
  {
    hide Linked, FramePtr;
    var mem', heads', lists' := LinkFront(mem, off, x, Head(lists[k])), heads[k := Some(x)], lists[k := [x] + lists[k]];
    forall m: nat | m <= MAX_ORDER ensures ListOk(mem', off, heads', lists', m) {
      PushListOk(mem, off, heads, lists, k, x, m);
    }
    var s := {x} + Elements(lists[k]);
    assert x in s && (lists[k] != [] ==> lists[k][0] in s);
  }

  // ---------------------------------------------------------------- remove

  /** The link writes of `remove_free`, and of `pop_free` when there is no predecessor. */
  function Unlink(mem: Memory, off: nat, prev: Option<nat>, next: Option<nat>): Memory {
    var m := if prev.None? then mem else mem[FramePtr(off, prev.value) := Encode(next)];
    if next.None? then m else m[FramePtr(off, next.value) + 8 := Encode(prev)]
  }

  lemma UnlinkAt(mem: Memory, off: nat, list: seq<nat>, i: nat, j: nat)
    requires Linked(mem, off, list) && Distinct(list) && i < |list| && j < |list| && i != j
    ensures NodeIs(Unlink(mem, off, PrevOf(list, i), NextOf(list, i)), off, list[j],
                   if j == i + 1 then PrevOf(list, i) else PrevOf(list, j),
                   if j + 1 == i then NextOf(list, i) else NextOf(list, j))
  {
    assert LinkedAt(mem, off, list, j);
    if i > 0 && j != i - 1 { assert list[i - 1] != list[j]; }
    if i + 1 < |list| && j != i + 1 { assert list[i + 1] != list[j]; }
  }

  lemma UnlinkCorrect(mem: Memory, off: nat, list: seq<nat>, i: nat)
    requires Linked(mem, off, list) && Distinct(list) && i < |list|
    ensures Linked(Unlink(mem, off, PrevOf(list, i), NextOf(list, i)), off, Without(list, i))
  {
    var mem' := Unlink(mem, off, PrevOf(list, i), NextOf(list, i));
    var list' := Without(list, i);
    forall k: nat | k < |list'| ensures LinkedAt(mem', off, list', k) {
      var j := if k < i then k else k + 1;
      UnlinkAt(mem, off, list, i, j);
      assert list'[k] == list[j];
      assert PrevOf(list', k) == if j == i + 1 then PrevOf(list, i) else PrevOf(list, j);
      assert NextOf(list', k) == if j + 1 == i then NextOf(list, i) else NextOf(list, j);
    }
  }

  function NewHead(heads: seq<Option<nat>>, k: nat, prev: Option<nat>, next: Option<nat>): seq<Option<nat>>
    requires k < |heads|
  {
    if prev.None? then heads[k := next] else heads
  }

  lemma RemoveListOk(mem: Memory, off: nat, heads: seq<Option<nat>>, lists: seq<seq<nat>>, k: nat, i: nat, m: nat)
    requires ListsOk(mem, off, heads, lists) && k <= MAX_ORDER && m <= MAX_ORDER && i < |lists[k]|
    ensures var prev, next := PrevOf(lists[k], i), NextOf(lists[k], i);
            ListOk(Unlink(mem, off, prev, next), off, NewHead(heads, k, prev, next), lists[k := Without(lists[k], i)], m)
  {
    hide Linked;
    assert ListOk(mem, off, heads, lists, k) && ListOk(mem, off, heads, lists, m);
    var prev, next := PrevOf(lists[k], i), NextOf(lists[k], i);
    var mem' := Unlink(mem, off, prev, next);
    WithoutMembers(lists[k], i);
    if m == k {
      UnlinkCorrect(mem, off, lists[k], i);
    } else {
      forall j: nat | j < |lists[m]| ensures SameNode(mem, mem', off, lists[m][j]) {
        assert lists[m][j] in lists[m];
        if prev.Some? { assert prev.value in lists[k]; }
        if next.Some? { assert next.value in lists[k]; }
      }
      LinkedFrame(mem, mem', off, lists[m]);
    }
  }

  /** `remove_free` takes a run out of its list, wherever it is. */
  lemma RemoveOk(mem: Memory, off: nat, heads: seq<Option<nat>>, lists: seq<seq<nat>>, k: nat, i: nat)
    requires ListsOk(mem, off, heads, lists) && k <= MAX_ORDER && i < |lists[k]|
    ensures var prev, next := PrevOf(lists[k], i), NextOf(lists[k], i);
            && NodeIs(mem, off, lists[k][i], prev, next)
            && (prev.Some? ==> prev.value < NULL_LINK) && (next.Some? ==> next.value < NULL_LINK)
            && ListsOk(Unlink(mem, off, prev, next), off, NewHead(heads, k, prev, next), lists[k := Without(lists[k], i)])
            && OnlyLinksDiffer(mem, Unlink(mem, off, prev, next), off, Elements(lists[k]))
    ensures forall x :: x in Without(lists[k], i) <==> x in lists[k] && x != lists[k][i]
    ensures Distinct(lists[k])
  {
    hide Linked, FramePtr;
    var prev, next := PrevOf(lists[k], i), NextOf(lists[k], i);
    var mem', heads', lists' := Unlink(mem, off, prev, next), NewHead(heads, k, prev, next), lists[k := Without(lists[k], i)];
    assert ListOk(mem, off, heads, lists, k);
    WithoutMembers(lists[k], i);
    LinksAt(mem, off, lists[k], i);
    forall m: nat | m <= MAX_ORDER ensures ListOk(mem', off, heads', lists', m) {
      RemoveListOk(mem, off, heads, lists, k, i, m);
    }
    assert prev.Some? ==> prev.value in lists[k];
    assert next.Some? ==> next.value in lists[k];
  }

  lemma LinksAt(mem: Memory, off: nat, list: seq<nat>, i: nat)
    requires Linked(mem, off, list) && i < |list|
    ensures NodeIs(mem, off, list[i], PrevOf(list, i), NextOf(list, i))
  {
    assert LinkedAt(mem, off, list, i);
  }
}
