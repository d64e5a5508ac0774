/** The free-block index of the TLSF heap: 19 x 32 list heads, one second-level bitmap word per
    first level, and one first-level word. `IndexOk` says that lists, heads, bitmaps and in-memory
    links all describe the same set of blocks; the lemmas say that `insert` and `remove` keep it. */
module TlsfIndex {
  import opened Bits
  import opened TlsfMapping
  import opened Options
  import opened FreeLists
  import opened TlsfMemory

  /** The allocator's own index fields. */
  datatype Index = Index(fl: nat, sl: seq<nat>, heads: seq<seq<Option<nat>>>)

  /** The contents of each free list, front first. */
  type Lists = map<Bucket, seq<nat>>

  /** The indexed blocks and the bucket each one is filed under. */
  type Filed = map<nat, Bucket>

  const WORD_LIMIT: nat := 0x1_0000_0000

  ghost predicate Shape(idx: Index) {
    && idx.fl < WORD_LIMIT
    && |idx.sl| == FL_COUNT && |idx.heads| == FL_COUNT
    && (forall f: nat :: f < FL_COUNT ==> idx.sl[f] < WORD_LIMIT)
    && (forall f: nat :: f < FL_COUNT ==> |idx.heads[f]| == SL_COUNT)
  }

  /** A first-level bit is set exactly when its second-level word is non-zero. */
  ghost predicate FirstLevelOk(idx: Index)
    requires Shape(idx)
  {
    forall f: nat :: TestBit(idx.fl, f) <==> f < FL_COUNT && idx.sl[f] != 0
  }

  ghost predicate Holds(list: seq<nat>, filed: Filed, b: Bucket) {
    forall x :: x in list <==> x in filed && filed[x] == b
  }

  /** Everything the index records about one bucket agrees. */
  ghost predicate BucketOk(mem: Memory, idx: Index, lists: Lists, filed: Filed, b: Bucket)
    requires Shape(idx) && b.InRange()
  {
    && b in lists
    && idx.heads[b.fl][b.sl] == Head(lists[b])
    && (TestBit(idx.sl[b.fl], b.sl) <==> lists[b] != [])
    && Linked(mem, lists[b])
    && Distinct(lists[b])
    && Holds(lists[b], filed, b)
  }

  ghost predicate FiledOk(filed: Filed) {
    && (forall x :: x in filed ==> filed[x].InRange())
    && (forall x, y :: x in filed && y in filed && x != y ==> Apart(x, y))
  }

  ghost predicate IndexOk(mem: Memory, idx: Index, lists: Lists, filed: Filed) {
    && Shape(idx) && FirstLevelOk(idx) && FiledOk(filed)
    && forall b: Bucket {:trigger BucketOk(mem, idx, lists, filed, b)} ::
         b.InRange() ==> BucketOk(mem, idx, lists, filed, b)
  }

  ghost predicate EmptyIndex(idx: Index) {
    && Shape(idx)
    && idx.fl == 0
    && (forall f: nat :: f < FL_COUNT ==> idx.sl[f] == 0)
    && (forall f: nat, s: nat :: f < FL_COUNT && s < SL_COUNT ==> idx.heads[f][s] == None)
  }

  function NoLists(): Lists {
    map f: nat, s: nat | f < FL_COUNT && s < SL_COUNT :: Bucket(f, s) := []
  }

  lemma EmptyIndexOk(mem: Memory, idx: Index)
    requires EmptyIndex(idx)
    ensures IndexOk(mem, idx, NoLists(), map[])
  {
    forall f: nat ensures TestBit(idx.fl, f) <==> f < FL_COUNT && idx.sl[f] != 0 { TestBitZero(f); }
    forall b: Bucket | b.InRange() ensures BucketOk(mem, idx, NoLists(), map[], b) {
      TestBitZero(b.sl);
      assert b == Bucket(b.fl, b.sl);
      assert b in NoLists();
    }
  }

  lemma ListSpread(mem: Memory, idx: Index, lists: Lists, filed: Filed, b: Bucket)
    requires IndexOk(mem, idx, lists, filed) && b.InRange()
    ensures BucketOk(mem, idx, lists, filed, b) && Spread(lists[b])
  {
    hide Linked, Shape, FirstLevelOk;
    assert BucketOk(mem, idx, lists, filed, b);
    var list := lists[b];
    forall i: nat, j: nat | i < j < |list| ensures Apart(list[i], list[j]) {
      assert list[i] in list && list[j] in list;
    }
  }

  // ---------------------------------------------------------------- framing

  lemma BucketFrame(mem: Memory, mem': Memory, idx: Index, lists: Lists, filed: Filed, b: Bucket)
    requires IndexOk(mem, idx, lists, filed) && b.InRange()
    requires forall x :: x in filed ==> SameNode(mem, mem', x)
    ensures BucketOk(mem', idx, lists, filed, b)
  {
    hide Linked, Shape, FirstLevelOk, SameNode;
    assert BucketOk(mem, idx, lists, filed, b);
    forall i: nat | i < |lists[b]| ensures SameNode(mem, mem', lists[b][i]) {
      assert lists[b][i] in lists[b];
    }
    LinkedFrame(mem, mem', lists[b]);
  }

  /** Writes that miss the node words of indexed blocks keep the index. */
  lemma IndexFrame(mem: Memory, mem': Memory, idx: Index, lists: Lists, filed: Filed)
    requires IndexOk(mem, idx, lists, filed)
    requires forall x :: x in filed ==> SameNode(mem, mem', x)
    ensures IndexOk(mem', idx, lists, filed)
  {
    hide BucketOk, SameNode, FirstLevelOk, FiledOk, Shape;
    forall b: Bucket | b.InRange() ensures Shape(idx) && BucketOk(mem', idx, lists, filed, b) {
      BucketFrame(mem, mem', idx, lists, filed, b);
    }
  }

  // ---------------------------------------------------------------- insert

  /** The field updates of `insert`. */
  function Inserted(idx: Index, b: Bucket, x: nat): Index
    requires b.fl < |idx.sl| && b.fl < |idx.heads| && b.sl < |idx.heads[b.fl]|
  {
    Index(Or(idx.fl, Pow2(b.fl)),
          idx.sl[b.fl := Or(idx.sl[b.fl], Pow2(b.sl))],
          idx.heads[b.fl := idx.heads[b.fl][b.sl := Some(x)]])
  }

  lemma InsertedShape(idx: Index, b: Bucket, x: nat)
    requires Shape(idx) && FirstLevelOk(idx) && b.InRange()
    ensures Shape(Inserted(idx, b, x)) && FirstLevelOk(Inserted(idx, b, x))
    ensures forall i: nat :: TestBit(Inserted(idx, b, x).sl[b.fl], i) <==> TestBit(idx.sl[b.fl], i) || i == b.sl
  {
    hide TestBit, Or, Pow2;
    Pow2Values();
    SetBit(idx.fl, b.fl, 32);
    SetBit(idx.sl[b.fl], b.sl, 32);
    var idx' := Inserted(idx, b, x);
    assert idx'.sl[b.fl] == Or(idx.sl[b.fl], Pow2(b.sl));
    assert TestBit(idx'.sl[b.fl], b.sl);
    if idx'.sl[b.fl] == 0 { TestBitZero(b.sl); }
  }

  lemma InsertBucket(mem: Memory, idx: Index, lists: Lists, filed: Filed, b: Bucket, x: nat, c: Bucket)
    requires IndexOk(mem, idx, lists, filed) && b.InRange() && c.InRange()
    requires x !in filed && forall y :: y in filed ==> Apart(x, y)
    requires b in lists && Shape(Inserted(idx, b, x))
    ensures BucketOk(LinkFront(mem, x, Head(lists[b])), Inserted(idx, b, x),
                     lists[b := [x] + lists[b]], filed[x := b], c)
  {
    hide Linked, FirstLevelOk, TestBit;
    var mem' := LinkFront(mem, x, Head(lists[b]));
    ListSpread(mem, idx, lists, filed, b);
    ListSpread(mem, idx, lists, filed, c);
    InsertedShape(idx, b, x);
    if c == b {
      assert ApartFromAll(x, lists[b]) by {
        forall i: nat | i < |lists[b]| ensures Apart(x, lists[b][i]) { assert lists[b][i] in lists[b]; }
      }
      LinkFrontCorrect(mem, x, lists[b]);
    } else {
      forall i: nat | i < |lists[c]| ensures SameNode(mem, mem', lists[c][i]) {
        var y := lists[c][i];
        assert y in lists[c];
        if lists[b] != [] { assert lists[b][0] in lists[b]; assert Apart(lists[b][0], y); }
      }
      LinkedFrame(mem, mem', lists[c]);
      assert Inserted(idx, b, x).heads[c.fl][c.sl] == idx.heads[c.fl][c.sl];
      assert TestBit(Inserted(idx, b, x).sl[c.fl], c.sl) <==> TestBit(idx.sl[c.fl], c.sl);
    }
  }

  /** `insert` files one more block, at the front of its bucket's list. */
  lemma InsertOk(mem: Memory, idx: Index, lists: Lists, filed: Filed, b: Bucket, x: nat)
    requires IndexOk(mem, idx, lists, filed) && b.InRange()
    requires x !in filed && forall y :: y in filed ==> Apart(x, y)
    ensures BucketOk(mem, idx, lists, filed, b)
    ensures IndexOk(LinkFront(mem, x, Head(lists[b])), Inserted(idx, b, x),
                    lists[b := [x] + lists[b]], filed[x := b])
  {
    assert BucketOk(mem, idx, lists, filed, b);
    hide BucketOk, FirstLevelOk, LinkFront;
    InsertedShape(idx, b, x);
    forall c: Bucket | c.InRange()
      ensures BucketOk(LinkFront(mem, x, Head(lists[b])), Inserted(idx, b, x), lists[b := [x] + lists[b]], filed[x := b], c)
    {
      InsertBucket(mem, idx, lists, filed, b, x, c);
    }
  }

  // ---------------------------------------------------------------- remove

  /** The field updates of `remove`, for the four combinations of neighbours. */
  function Removed(idx: Index, b: Bucket, prev: Option<nat>, next: Option<nat>): Index
    requires b.fl < |idx.sl| && b.fl < |idx.heads| && b.sl < |idx.heads[b.fl]|
    requires Pow2(b.sl) < Pow2(32) && Pow2(b.fl) < Pow2(32)
  {
    if prev.None? && next.None? then
      var word := And(idx.sl[b.fl], Not(Pow2(b.sl), 32));
      Index(if word == 0 then And(idx.fl, Not(Pow2(b.fl), 32)) else idx.fl,
            idx.sl[b.fl := word],
            idx.heads[b.fl := idx.heads[b.fl][b.sl := None]])
    else if prev.None? then
      idx.(heads := idx.heads[b.fl := idx.heads[b.fl][b.sl := next]])
    else
      idx
  }

  lemma RemovedShape(idx: Index, b: Bucket, prev: Option<nat>, next: Option<nat>)
    requires Shape(idx) && FirstLevelOk(idx) && b.InRange()
    requires Pow2(b.sl) < Pow2(32) && Pow2(b.fl) < Pow2(32)
    requires TestBit(idx.sl[b.fl], b.sl)
    ensures Shape(Removed(idx, b, prev, next)) && FirstLevelOk(Removed(idx, b, prev, next))
    ensures forall i: nat :: TestBit(Removed(idx, b, prev, next).sl[b.fl], i) <==>
                             TestBit(idx.sl[b.fl], i) && !(i == b.sl && prev.None? && next.None?)
  {
    hide TestBit, And, Pow2, Not;
    Pow2Values();
    ClearBit(idx.fl, b.fl, 32);
    ClearBit(idx.sl[b.fl], b.sl, 32);
    if idx.sl[b.fl] == 0 { TestBitZero(b.sl); }
  }

  lemma RemoveBucket(mem: Memory, idx: Index, lists: Lists, filed: Filed, x: nat, i: nat, c: Bucket)
    requires IndexOk(mem, idx, lists, filed) && x in filed && c.InRange()
    requires var b := filed[x]; b.InRange() && b in lists && i < |lists[b]| && lists[b][i] == x
    requires var b := filed[x]; Pow2(b.sl) < Pow2(32) && Pow2(b.fl) < Pow2(32)
    requires var b := filed[x]; Shape(Removed(idx, b, PrevOf(lists[b], i), NextOf(lists[b], i)))
    ensures var b := filed[x];
            BucketOk(Unlink(mem, PrevOf(lists[b], i), NextOf(lists[b], i)),
                     Removed(idx, b, PrevOf(lists[b], i), NextOf(lists[b], i)),
                     lists[b := Without(lists[b], i)], filed - {x}, c)
  {
    hide Linked, FirstLevelOk, TestBit, Pow2, And, Not;
    var b := filed[x];
    var prev, next := PrevOf(lists[b], i), NextOf(lists[b], i);
    var mem', idx' := Unlink(mem, prev, next), Removed(idx, b, prev, next);
    ListSpread(mem, idx, lists, filed, b);
    ListSpread(mem, idx, lists, filed, c);
    RemovedShape(idx, b, prev, next);
    WithoutMembers(lists[b], i);
    if c == b {
      UnlinkCorrect(mem, lists[b], i);
    } else {
      forall k: nat | k < |lists[c]| ensures SameNode(mem, mem', lists[c][k]) {
        var y := lists[c][k];
        assert y in lists[c];
        if prev.Some? { assert prev.value in lists[b]; assert Apart(prev.value, y); }
        if next.Some? { assert next.value in lists[b]; assert Apart(next.value, y); }
      }
      LinkedFrame(mem, mem', lists[c]);
      assert idx'.heads[c.fl][c.sl] == idx.heads[c.fl][c.sl];
      assert TestBit(idx'.sl[c.fl], c.sl) <==> TestBit(idx.sl[c.fl], c.sl);
    }
  }

  /** `remove` unfiles one block, wherever in its list it is. */
  lemma RemoveOk(mem: Memory, idx: Index, lists: Lists, filed: Filed, x: nat, i: nat)
    requires IndexOk(mem, idx, lists, filed) && x in filed
    requires var b := filed[x]; b.InRange() && b in lists && i < |lists[b]| && lists[b][i] == x
    requires var b := filed[x]; Pow2(b.sl) < Pow2(32) && Pow2(b.fl) < Pow2(32)
    ensures var b := filed[x];
            IndexOk(Unlink(mem, PrevOf(lists[b], i), NextOf(lists[b], i)),
                    Removed(idx, b, PrevOf(lists[b], i), NextOf(lists[b], i)),
                    lists[b := Without(lists[b], i)], filed - {x})
  {
    var b := filed[x];
    var prev, next := PrevOf(lists[b], i), NextOf(lists[b], i);
    assert BucketOk(mem, idx, lists, filed, b);
    hide BucketOk, FirstLevelOk, Unlink, Removed, Without;
    RemovedShape(idx, b, prev, next);
    forall c: Bucket | c.InRange()
      ensures BucketOk(Unlink(mem, prev, next), Removed(idx, b, prev, next), lists[b := Without(lists[b], i)], filed - {x}, c)
    {
      RemoveBucket(mem, idx, lists, filed, x, i, c);
    }
  }

  /** Where a filed block sits in its list, and the links `remove` will read. */
  lemma FindFiled(mem: Memory, idx: Index, lists: Lists, filed: Filed, x: nat)
    returns (i: nat, prev: Option<nat>, next: Option<nat>)
    requires IndexOk(mem, idx, lists, filed) && x in filed
    ensures var b := filed[x];
            && b.InRange() && b in lists && i < |lists[b]| && lists[b][i] == x
            && prev == PrevOf(lists[b], i) && next == NextOf(lists[b], i)
    ensures NodeIs(mem, x, prev, next)
    ensures prev.Some? ==> prev.value in filed
    ensures next.Some? ==> next.value in filed
  {
    var b := filed[x];
    assert BucketOk(mem, idx, lists, filed, b);
    assert x in lists[b];
    i :| 0 <= i < |lists[b]| && lists[b][i] == x;
    prev, next := PrevOf(lists[b], i), NextOf(lists[b], i);
    assert LinkedAt(mem, lists[b], i);
    assert prev.Some? ==> prev.value in lists[b];
    assert next.Some? ==> next.value in lists[b];
  }

  // ---------------------------------------------------------------- searching the index

  /** A bucket's bit, its head and its blocks tell the same story. */
  lemma HeadOfBucket(mem: Memory, idx: Index, lists: Lists, filed: Filed, b: Bucket)
    requires IndexOk(mem, idx, lists, filed) && b.InRange()
    ensures TestBit(idx.sl[b.fl], b.sl) <==> idx.heads[b.fl][b.sl].Some?
    ensures idx.heads[b.fl][b.sl].Some? ==>
              idx.heads[b.fl][b.sl].value in filed && filed[idx.heads[b.fl][b.sl].value] == b
    ensures forall x :: x in filed && filed[x] == b ==> idx.heads[b.fl][b.sl].Some?
  {
    hide Linked, TestBit, FirstLevelOk, FiledOk;
    assert BucketOk(mem, idx, lists, filed, b);
    if lists[b] != [] { assert lists[b][0] in lists[b]; }
    forall x | x in filed && filed[x] == b ensures lists[b] != [] { assert x in lists[b]; }
  }

  /** The sizes in the headers of filed blocks are the ones they are filed under. */
  ghost predicate SizedAt(mem: Memory, filed: Filed, x: nat)
    requires x in filed
  {
    && x in mem && mem[x].HeaderWord?
    && mem[x].header.size >= MIN_BLOCK_SIZE
    && filed[x] == Mapping(mem[x].header.size)
  }

  ghost predicate SizesFiled(mem: Memory, filed: Filed) {
    forall x {:trigger SizedAt(mem, filed, x)} :: x in filed ==> SizedAt(mem, filed, x)
  }

  /** The list of `b` is empty or starts with a block smaller than `needed`. */
  ghost predicate HeadTooSmall(mem: Memory, idx: Index, b: Bucket, needed: nat)
    requires Shape(idx) && b.InRange()
  {
    match idx.heads[b.fl][b.sl]
    case None => true
    case Some(y) => y in mem && mem[y].HeaderWord? && mem[y].header.size < needed
  }

  /** Every filed block that is large enough is one `find_block` does not consider: it is in the first
      level of `needed`, in an earlier bucket or in a bucket whose head is too small. */
  ghost predicate NothingFits(mem: Memory, idx: Index, filed: Filed, needed: nat)
    requires needed > 0 && Shape(idx) && FiledOk(filed) && SizesFiled(mem, filed)
  {
    forall x :: x in filed && SizedAt(mem, filed, x) && mem[x].header.size >= needed ==>
      && filed[x].fl == Mapping(needed).fl
      && (filed[x].sl < Mapping(needed).sl || HeadTooSmall(mem, idx, filed[x], needed))
  }

  /** The bucket the search takes its block from: in the level of `needed`, the first bucket from its own
      whose head is large enough; otherwise the first non-empty bucket of the first higher level in use. */
  ghost predicate Picks(mem: Memory, idx: Index, needed: nat, c: Bucket)
    requires needed > 0 && Shape(idx) && c.InRange()
  {
    var m := Mapping(needed);
    && idx.heads[c.fl][c.sl].Some?
    && if c.fl == m.fl then
         && m.sl <= c.sl && !HeadTooSmall(mem, idx, c, needed)
         && forall s: nat :: m.sl <= s < c.sl ==> HeadTooSmall(mem, idx, Bucket(m.fl, s), needed)
       else
         && m.fl < c.fl
         && (forall s: nat :: m.sl <= s < SL_COUNT ==> HeadTooSmall(mem, idx, Bucket(m.fl, s), needed))
         && (forall f: nat, s: nat :: m.fl < f < c.fl && s < SL_COUNT ==> idx.heads[f][s].None?)
         && (forall s: nat :: s < c.sl ==> idx.heads[c.fl][s].None?)
  }

  /** The lowest set bit of a word whose bits are those of `w` from `k` on. */
  lemma LowestSet(w: nat, m: nat, k: nat)
    requires m > 0 && w < Pow2(32) && forall i: nat :: TestBit(m, i) <==> TestBit(w, i) && i >= k
    ensures k <= TrailingZeros(m) < 32 && TestBit(w, TrailingZeros(m))
    ensures forall i: nat :: k <= i < TrailingZeros(m) ==> !TestBit(w, i)
  {
    hide Pow2, TestBit, TrailingZeros;
    TrailingZerosIsLowest(m);
    var z := TrailingZeros(m);
    assert TestBit(m, z);
    if z >= 32 { TestBitBelow(w, 32, z); }
    forall i: nat | k <= i < z ensures !TestBit(w, i) { assert !TestBit(m, i); }
  }

  lemma LowestFrom(w: nat, k: nat)
    requires w < WORD_LIMIT && k <= 32
    ensures Pow2(k) <= Pow2(32) == WORD_LIMIT
    ensures And(w, Not(Pow2(k) - 1, 32)) == 0 ==> forall i: nat :: i >= k ==> !TestBit(w, i)
    ensures var m := And(w, Not(Pow2(k) - 1, 32));
            m > 0 ==>
              && k <= TrailingZeros(m) < 32 && TestBit(w, TrailingZeros(m))
              && forall i: nat :: k <= i < TrailingZeros(m) ==> !TestBit(w, i)
  {
    hide And, Pow2, Not, TestBit, TrailingZeros;
    Pow2Values();
    Pow2Monotone(k, 32);
    MaskFrom(w, k, 32);
    var m := And(w, Not(Pow2(k) - 1, 32));
    if m > 0 {
      LowestSet(w, m, k);
    } else {
      ZeroIffNoBits(m);
      forall i: nat | i >= k ensures !TestBit(w, i) { assert !TestBit(m, i); }
    }
  }

  /** The search of the higher first levels finds a bucket with a block, or there is none. */
  lemma HigherLevels(mem: Memory, idx: Index, lists: Lists, filed: Filed, fli: nat)
    requires IndexOk(mem, idx, lists, filed) && fli < FL_COUNT
    ensures Pow2(fli + 1) <= Pow2(32)
    ensures idx.fl < Pow2(32)
    ensures var m := And(idx.fl, Not(Pow2(fli + 1) - 1, 32));
            && (m == 0 ==> forall x :: x in filed ==> filed[x].fl <= fli)
            && (m > 0 ==>
                  var f := TrailingZeros(m);
                  && fli < f < FL_COUNT && idx.sl[f] > 0
                  && TrailingZeros(idx.sl[f]) < SL_COUNT
                  && idx.heads[f][TrailingZeros(idx.sl[f])].Some?
                  && (forall g: nat, s: nat :: fli < g < f && s < SL_COUNT ==> idx.heads[g][s].None?)
                  && (forall s: nat :: s < TrailingZeros(idx.sl[f]) ==> idx.heads[f][s].None?))
  {
    hide And, Pow2, Not, TestBit, BucketOk;
    LowestFrom(idx.fl, fli + 1);
    var m := And(idx.fl, Not(Pow2(fli + 1) - 1, 32));
    if m == 0 {
      forall x | x in filed ensures filed[x].fl <= fli {
        var b := filed[x];
        HeadOfBucket(mem, idx, lists, filed, b);
        if idx.sl[b.fl] == 0 { TestBitZero(b.sl); }
      }
    } else {
      var f := TrailingZeros(m);
      Pow2Values();
      TrailingZerosIsLowest(idx.sl[f]);
      var s := TrailingZeros(idx.sl[f]);
      if s >= 32 { TestBitBelow(idx.sl[f], 32, s); }
      HeadOfBucket(mem, idx, lists, filed, Bucket(f, s));
      forall t: nat | t < s ensures idx.heads[f][t].None? { HeadOfBucket(mem, idx, lists, filed, Bucket(f, t)); }
      forall g: nat, t: nat | fli < g < f && t < SL_COUNT ensures idx.heads[g][t].None? {
        HeadOfBucket(mem, idx, lists, filed, Bucket(g, t));
        TestBitZero(t);
      }
    }
  }

  /** A block that the search does reach. */
  lemma ReachedFits(mem: Memory, idx: Index, filed: Filed, needed: nat, x: nat)
    requires needed > 0 && Shape(idx) && FiledOk(filed) && SizesFiled(mem, filed)
    requires x in filed && SizedAt(mem, filed, x) && mem[x].header.size >= needed
    requires || filed[x].fl != Mapping(needed).fl
             || (filed[x].sl >= Mapping(needed).sl && idx.heads[filed[x].fl][filed[x].sl] == Some(x))
    ensures !NothingFits(mem, idx, filed, needed)
  {
    hide Mapping;
  }

  /** With every head of the level too small and no higher level in use, nothing fits. */
  lemma SearchFails(mem: Memory, idx: Index, filed: Filed, needed: nat)
    requires needed >= MIN_BLOCK_SIZE && Shape(idx) && FiledOk(filed) && SizesFiled(mem, filed)
    requires var m := Mapping(needed);
             && (forall s: nat :: m.sl <= s < SL_COUNT ==> HeadTooSmall(mem, idx, Bucket(m.fl, s), needed))
             && (forall x :: x in filed ==> filed[x].fl <= m.fl)
    ensures NothingFits(mem, idx, filed, needed)
  {
    hide Mapping;
    var m := Mapping(needed);
    forall x | x in filed && SizedAt(mem, filed, x) && mem[x].header.size >= needed
      ensures filed[x].fl == m.fl && (filed[x].sl < m.sl || HeadTooSmall(mem, idx, filed[x], needed))
    {
      if filed[x].fl < m.fl { HigherLevelIsLarger(mem[x].header.size, needed); }
      assert filed[x] == Bucket(m.fl, filed[x].sl);
    }
  }

  // ---------------------------------------------------------------- the index of a single free block

  /** The index that files exactly one block. */
  function SingleIndex(b: Bucket, x: nat): Index {
    Index(Pow2(b.fl),
          seq(FL_COUNT, (f: nat) => if f == b.fl then Pow2(b.sl) else 0),
          seq(FL_COUNT, (f: nat) => seq(SL_COUNT, (s: nat) => if f == b.fl && s == b.sl then Some(x) else None)))
  }

  lemma SingleBucket(mem: Memory, idx: Index, lists: Lists, b: Bucket, x: nat, c: Bucket)
    requires IndexOk(mem, idx, lists, map[x := b]) && c.InRange()
    ensures idx.heads[c.fl][c.sl] == if c == b then Some(x) else None
    ensures TestBit(idx.sl[c.fl], c.sl) <==> c == b
  {
    hide TestBit, BucketOk;
    HeadOfBucket(mem, idx, lists, map[x := b], c);
    var filed: Filed := map[x := b];
    assert x in filed && filed[x] == b;
  }

  lemma SingleWord(mem: Memory, idx: Index, lists: Lists, b: Bucket, x: nat, f: nat)
    requires IndexOk(mem, idx, lists, map[x := b]) && b.InRange() && f < FL_COUNT
    ensures idx.sl[f] == if f == b.fl then Pow2(b.sl) else 0
  {
    hide BucketOk, TestBit, Pow2;
    var word := if f == b.fl then Pow2(b.sl) else 0;
    forall i: nat ensures TestBit(idx.sl[f], i) == TestBit(word, i) {
      Pow2Values();
      TestBitPow2(b.sl, i);
      TestBitZero(i);
      if i < SL_COUNT {
        SingleBucket(mem, idx, lists, b, x, Bucket(f, i));
      } else {
        TestBitBelow(idx.sl[f], 32, i);
      }
    }
    SameBits(idx.sl[f], word);
  }

  /** A valid index of one block is that index, bit for bit. */
  lemma SingleIndexUnique(mem: Memory, idx: Index, lists: Lists, b: Bucket, x: nat)
    requires IndexOk(mem, idx, lists, map[x := b]) && b.InRange()
    ensures idx == SingleIndex(b, x)
  {
    hide BucketOk, TestBit, Pow2;
    forall f: nat | f < FL_COUNT
      ensures idx.sl[f] == (if f == b.fl then Pow2(b.sl) else 0)
      ensures idx.heads[f] == seq(SL_COUNT, (s: nat) => if f == b.fl && s == b.sl then Some(x) else None)
    {
      SingleWord(mem, idx, lists, b, x, f);
      forall s: nat | s < SL_COUNT
        ensures idx.heads[f][s] == if f == b.fl && s == b.sl then Some(x) else None
      {
        SingleBucket(mem, idx, lists, b, x, Bucket(f, s));
      }
    }
    forall i: nat ensures TestBit(idx.fl, i) == TestBit(Pow2(b.fl), i) {
      TestBitPow2(b.fl, i);
    }
    SameBits(idx.fl, Pow2(b.fl));
    assert idx.sl == SingleIndex(b, x).sl;
    assert idx.heads == SingleIndex(b, x).heads;
  }

  /** Good fit: of all lists whose first block is large enough, the search takes the one of the smallest
      size class. */
  lemma PicksSmallestClass(mem: Memory, idx: Index, needed: nat, c: Bucket, d: Bucket)
    requires MIN_BLOCK_SIZE <= needed && Shape(idx) && c.InRange() && d.InRange() && Picks(mem, idx, needed, c)
    requires idx.heads[d.fl][d.sl].Some?
    requires var y := idx.heads[d.fl][d.sl].value;
             && y in mem && mem[y].HeaderWord? && needed <= mem[y].header.size < CLASS_LIMIT
             && Mapping(mem[y].header.size) == d
    ensures NotAfter(c, d)
  {
    hide Mapping;
    MappingMonotone(needed, mem[idx.heads[d.fl][d.sl].value].header.size);
    assert !HeadTooSmall(mem, idx, d, needed);
    assert d == Bucket(d.fl, d.sl);
  }
}
