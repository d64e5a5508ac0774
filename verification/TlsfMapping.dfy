/** Size classes of the TLSF heap: `align_up`, `mapping`, and what a bucket says about the sizes in it. */
module TlsfMapping {
  import opened Bits

  const HEADER_SIZE: nat := 8
  const MIN_BLOCK_SIZE: nat := 32
  const MIN_FL: nat := 5
  const FL_COUNT: nat := 19
  const SL_COUNT: nat := 32

  /** One past the largest `usize`. */
  const USIZE_LIMIT: nat := 0x1_0000_0000_0000_0000

  /** 16 MiB, where the first level saturates. */
  const CLASS_LIMIT: nat := 0x100_0000

  /** A first-level/second-level pair, the index of one free list. */
  datatype Bucket = Bucket(fl: nat, sl: nat) {
    predicate InRange() {
      fl < FL_COUNT && sl < SL_COUNT
    }
  }

  function Max(a: nat, b: nat): nat {
    if a < b then b else a
  }

  // ---------------------------------------------------------------- align_up

  /** `a.is_power_of_two()` */
  predicate IsPow2(a: nat) {
    a == 1 || (a > 1 && a % 2 == 0 && IsPow2(a / 2))
  }

  lemma {:induction false} Exponent(a: nat) returns (k: nat)
    requires IsPow2(a)
    ensures a == Pow2(k)
  {
    if a == 1 {
      k := 0;
    } else {
      k := Exponent(a / 2);
      k := k + 1;
    }
  }

  /** `(addr + align - 1) & !(align - 1)` */
  function AlignUp(addr: nat, align: nat): nat
    requires align > 0 && addr + align - 1 < USIZE_LIMIT
  {
    Pow2Values();
    And(addr + align - 1, Not(align - 1, 64))
  }

  lemma AlignUpValue(addr: nat, k: nat)
    requires addr + Pow2(k) - 1 < USIZE_LIMIT
    ensures var y := addr + Pow2(k) - 1;
            Low(y, k) <= y && AlignUp(addr, Pow2(k)) == y - Low(y, k)
  {
    hide And, Low, Pow2;
    Pow2Values();
    if k > 64 { Pow2Monotone(64, k); } else { Pow2Monotone(k, 64); }
    AndHighMask(addr + Pow2(k) - 1, k, 64);
    LowBound(addr + Pow2(k) - 1, k);
  }

  lemma AlignUpByExponent(addr: nat, k: nat)
    requires addr + Pow2(k) - 1 < USIZE_LIMIT
    ensures Low(AlignUp(addr, Pow2(k)), k) == 0
    ensures addr <= AlignUp(addr, Pow2(k)) < addr + Pow2(k)
    ensures Low(addr, k) == 0 ==> AlignUp(addr, Pow2(k)) == addr
  {
    hide *;
    AlignUpValue(addr, k);
    RoundUp(addr, k);
  }

  /** For a power of two, the mask computes the least multiple of `align` that is at least `addr`. */
  lemma AlignUpIsLeastMultiple(addr: nat, align: nat)
    requires IsPow2(align) && addr + align - 1 < USIZE_LIMIT
    ensures AlignUp(addr, align) % align == 0
    ensures addr <= AlignUp(addr, align) < addr + align
    ensures addr % align == 0 ==> AlignUp(addr, align) == addr
  {
    var k := Exponent(align);
    hide *;
    AlignUpByExponent(addr, k);
    LowIsMod(AlignUp(addr, align), k);
    LowIsMod(addr, k);
  }

  // ---------------------------------------------------------------- mapping

  /** The size class of `size`. The product with `SL_COUNT` wraps at 2^64, as an unchecked `usize` does. */
  function Mapping(size: nat): (b: Bucket)
    requires size > 0
    ensures b.InRange()
  {
    var fl := FloorLog2(size);
    var sl := Shr(Xor(size, Pow2(fl)) * SL_COUNT % USIZE_LIMIT, fl);
    Bucket(Min(if fl < MIN_FL then 0 else fl - MIN_FL, FL_COUNT - 1), Min(sl, SL_COUNT - 1))
  }

  /** Removing the leading bit by `^` is a subtraction. */
  lemma XorLeadingBit(size: nat)
    requires size > 0
    ensures Xor(size, Pow2(FloorLog2(size))) == size - Pow2(FloorLog2(size))
  {
    TopBitSet(size);
    XorPow2(size, FloorLog2(size));
  }

  lemma LeadingBitBounds(size: nat)
    requires size >= MIN_BLOCK_SIZE
    ensures FloorLog2(size) >= MIN_FL
    ensures size < CLASS_LIMIT <==> FloorLog2(size) < 24
  {
    FloorLog2Bounds(size);
    Pow2Values();
    var k := FloorLog2(size);
    if k < MIN_FL { Pow2Monotone(k + 1, MIN_FL); }
    if k < 24 { Pow2Monotone(k + 1, 24); } else { Pow2Monotone(24, k); }
  }

  lemma MappingFirstLevel(size: nat)
    requires size >= MIN_BLOCK_SIZE
    ensures FloorLog2(size) >= MIN_FL
    ensures Mapping(size).fl == Min(FloorLog2(size) - MIN_FL, FL_COUNT - 1)
  {
    LeadingBitBounds(size);
  }

  /** The bounds a bucket's first level gives, for blocks of any size. */
  lemma FirstLevelBounds(size: nat)
    requires size >= MIN_BLOCK_SIZE
    ensures Pow2(Mapping(size).fl + MIN_FL) <= size
    ensures Mapping(size).fl < FL_COUNT - 1 ==> size < Pow2(Mapping(size).fl + MIN_FL + 1)
  {
    hide Mapping;
    MappingFirstLevel(size);
    FloorLog2Bounds(size);
    LeadingBitBounds(size);
    Pow2Monotone(Mapping(size).fl + MIN_FL, FloorLog2(size));
  }

  /** A block filed under a higher first level is larger, whatever the second levels. */
  lemma HigherLevelIsLarger(small: nat, large: nat)
    requires small >= MIN_BLOCK_SIZE && large >= MIN_BLOCK_SIZE
    requires Mapping(small).fl < Mapping(large).fl
    ensures small < large
  {
    hide Mapping;
    FirstLevelBounds(small);
    FirstLevelBounds(large);
    Pow2Monotone(Mapping(small).fl + MIN_FL + 1, Mapping(large).fl + MIN_FL);
  }

  lemma {:induction false} ShrScaled(x: nat, f: nat)
    ensures Shr(x * 32, f + 5) == Shr(x, f)
  {
    assert x * 32 / 2 == x * 16 && x * 16 / 2 == x * 8 && x * 8 / 2 == x * 4 && x * 4 / 2 == x * 2;
    assert Shr(x * 32, f + 5) == Shr(x * 16, f + 4) == Shr(x * 8, f + 3);
    assert Shr(x * 8, f + 3) == Shr(x * 4, f + 2) == Shr(x * 2, f + 1) == Shr(x, f);
  }

  /** Below 16 MiB the class is the leading bit and the next five bits. */
  lemma MappingSmall(size: nat)
    requires MIN_BLOCK_SIZE <= size < CLASS_LIMIT
    ensures MIN_FL <= FloorLog2(size) < 24
    ensures Pow2(FloorLog2(size)) <= size
    ensures Mapping(size) == Bucket(FloorLog2(size) - MIN_FL,
                                    Shr(size - Pow2(FloorLog2(size)), FloorLog2(size) - MIN_FL))
  {
    hide FloorLog2, Pow2, Shr, Xor;
    var k := FloorLog2(size);
    FloorLog2Bounds(size);
    LeadingBitBounds(size);
    XorLeadingBit(size);
    var x := size - Pow2(k);
    ShrScaled(x, k - 5);
    assert x * 32 % USIZE_LIMIT == x * 32;
    assert Pow2(k - 5 + 5) == Pow2(k);
    SecondLevelBound(x, k - 5);
  }

  lemma SecondLevelBound(x: nat, f: nat)
    requires x < Pow2(f + 5)
    ensures Shr(x, f) < 32
  {
    ShrLow(x, f);
    Pow2Add(5, f);
    Pow2Values();
    if Shr(x, f) >= 32 { MulMonotone(32, Shr(x, f), Pow2(f)); }
  }

  lemma MulMonotone(a: int, b: int, d: nat)
    requires a <= b
    ensures a * d <= b * d
  {
    assert (b - a) * d >= 0;
  }

  /** The sizes from `2^(f+5) + l*2^f` up to the start of the next bucket. */
  predicate InBucketRange(size: nat, f: nat, l: nat) {
    Pow2(f + MIN_FL) + l * Pow2(f) <= size < Pow2(f + MIN_FL) + (l + 1) * Pow2(f)
  }

  lemma LeadingBitsOfRange(size: nat, f: nat, l: nat)
    requires l < SL_COUNT && InBucketRange(size, f, l)
    ensures FloorLog2(size) == f + MIN_FL
    ensures Shr(size - Pow2(f + MIN_FL), f) == l
  {
    hide Pow2, FloorLog2, Shr;
    var p, q := Pow2(f), Pow2(f + MIN_FL);
    Pow2Add(5, f);
    Pow2Values();
    assert (l + 1) * p == l * p + p;
    MulMonotone(l + 1, 32, p);
    FloorLog2Unique(size, f + MIN_FL);
    ShrLowUnique(size - q, f, l, size - q - l * p);
  }

  lemma RangeOfLeadingBits(size: nat, f: nat, l: nat)
    requires size >= Pow2(f + MIN_FL) && Shr(size - Pow2(f + MIN_FL), f) == l
    ensures InBucketRange(size, f, l)
  {
    hide Shr;
    var p := Pow2(f);
    assert (l + 1) * p == l * p + p;
    ShrLow(size - Pow2(f + MIN_FL), f);
  }

  lemma FloorLog2Double(s: nat)
    requires s > 0
    ensures FloorLog2(2 * s) == 1 + FloorLog2(s)
  {
  }

  /** A size at least twice another lies in a higher first level. */
  lemma TwiceIsHigher(s: nat, t: nat)
    requires MIN_BLOCK_SIZE <= s && 2 * s <= t < CLASS_LIMIT
    ensures Mapping(s).fl < Mapping(t).fl
  {
    hide Mapping, Shr, Pow2, FloorLog2;
    MappingSmall(s);
    MappingSmall(t);
    FloorLog2Monotone(2 * s, t);
    FloorLog2Double(s);
  }

  /** Good-fit classes: below 16 MiB, a bucket holds exactly the sizes in its range. */
  lemma BucketRange(size: nat, b: Bucket)
    requires MIN_BLOCK_SIZE <= size < CLASS_LIMIT && b.InRange()
    ensures Mapping(size) == b <==> InBucketRange(size, b.fl, b.sl)
  {
    hide Mapping, InBucketRange, Pow2, Shr;
    MappingSmall(size);
    if Mapping(size) == b {
      RangeOfLeadingBits(size, b.fl, b.sl);
    } else if InBucketRange(size, b.fl, b.sl) {
      LeadingBitsOfRange(size, b.fl, b.sl);
    }
  }

  /** Bucket `b` is `c` or comes before it. */
  predicate NotAfter(b: Bucket, c: Bucket) {
    b.fl < c.fl || (b.fl == c.fl && b.sl <= c.sl)
  }

  /** Below 16 MiB a larger size never maps to an earlier bucket. */
  lemma MappingMonotone(s: nat, t: nat)
    requires MIN_BLOCK_SIZE <= s <= t < CLASS_LIMIT
    ensures NotAfter(Mapping(s), Mapping(t))
  {
    hide Mapping, Pow2, Shr;
    MappingSmall(s);
    MappingSmall(t);
    FloorLog2Monotone(s, t);
    if Mapping(s).fl == Mapping(t).fl {
      var base := Pow2(FloorLog2(s));
      ShrMonotone(s - base, t - base, Mapping(s).fl);
    }
  }

  /** At 16 MiB the first level saturates: the second level starts over in the same first level. */
  lemma FirstLevelSaturates()
    ensures Mapping(CLASS_LIMIT - 1) == Bucket(18, 31) && Mapping(CLASS_LIMIT) == Bucket(18, 0)
  {
    hide Mapping, Shr;
    BelowLimit();
    AtLimit();
  }

  lemma BelowLimit()
    ensures Mapping(CLASS_LIMIT - 1) == Bucket(18, 31)
  {
    hide Mapping, Shr;
    Pow2Values();
    Pow2Add(5, 18);
    BucketRange(CLASS_LIMIT - 1, Bucket(18, 31));
  }

  lemma AtLimit()
    ensures Mapping(CLASS_LIMIT) == Bucket(18, 0)
  {
    hide FloorLog2, Pow2, Shr, Xor;
    Pow2Values();
    Pow2Add(1, 24);
    FloorLog2Unique(CLASS_LIMIT, 24);
    XorLeadingBit(CLASS_LIMIT);
    ShrLowUnique(0, 24, 0, 0);
  }

  /** The size classes of all sizes below `limit` are monotone exactly when `limit` is at most 16 MiB. */
  lemma MappingMonotoneIff(limit: nat)
    ensures (forall s: nat, t: nat {:trigger Mapping(s), Mapping(t)} ::
               MIN_BLOCK_SIZE <= s <= t < limit ==> NotAfter(Mapping(s), Mapping(t))) <==> limit <= CLASS_LIMIT
  {
    hide Mapping, NotAfter;
    if limit <= CLASS_LIMIT {
      forall s: nat, t: nat | MIN_BLOCK_SIZE <= s <= t < limit ensures NotAfter(Mapping(s), Mapping(t)) {
        MappingMonotone(s, t);
      }
    } else {
      FirstLevelSaturates();
      assert !NotAfter(Mapping(CLASS_LIMIT - 1), Mapping(CLASS_LIMIT)) by { AfterSaturation(); }
    }
  }

  lemma AfterSaturation()
    ensures !NotAfter(Bucket(18, 31), Bucket(18, 0))
  {
  }
}
