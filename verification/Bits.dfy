/** Machine-word bit operations, modelled on natural numbers.

A word of `n` bits is a `nat` below `Pow2(n)`. The operators are defined bit by bit, and the
lemmas give the arithmetic meaning of the masks that the kernel uses: rounding to a power of two,
flipping a buddy bit, packing flags under an aligned size, setting and clearing bitmap bits. */
module Bits {
  function Min(a: nat, b: nat): nat {
    if a < b then a else b
  }

  function Pow2(k: nat): (p: nat)
    ensures p > 0
  {
    if k == 0 then 1 else 2 * Pow2(k - 1)
  }

  /** Bit `i` of `w`. */
  predicate TestBit(w: nat, i: nat) {
    if i == 0 then w % 2 == 1 else TestBit(w / 2, i - 1)
  }

  /** `x & y` */
  function And(x: nat, y: nat): nat {
    if x == 0 || y == 0 then 0
    else (if x % 2 == 1 && y % 2 == 1 then 1 else 0) + 2 * And(x / 2, y / 2)
  }

  /** `x | y` */
  function Or(x: nat, y: nat): nat {
    if x == 0 then y
    else if y == 0 then x
    else (if x % 2 == 1 || y % 2 == 1 then 1 else 0) + 2 * Or(x / 2, y / 2)
  }

  /** `x ^ y` */
  function Xor(x: nat, y: nat): nat {
    if x == 0 then y
    else if y == 0 then x
    else (if x % 2 != y % 2 then 1 else 0) + 2 * Xor(x / 2, y / 2)
  }

  /** `!w` on an `n`-bit word. */
  function Not(w: nat, n: nat): nat
    requires w < Pow2(n)
  {
    Pow2(n) - 1 - w
  }

  /** `x >> k` */
  function Shr(x: nat, k: nat): nat {
    if k == 0 then x else Shr(x / 2, k - 1)
  }

  /** The `k` low bits of `x`. */
  function Low(x: nat, k: nat): nat {
    if k == 0 then 0 else x % 2 + 2 * Low(x / 2, k - 1)
  }

  /** `w.trailing_zeros()` of a non-zero word. */
  function TrailingZeros(w: nat): nat
    requires w > 0
  {
    if w % 2 == 1 then 0 else 1 + TrailingZeros(w / 2)
  }

  /** `BITS - x.leading_zeros() - 1`, the position of the highest set bit of a non-zero word. */
  function FloorLog2(x: nat): (k: nat)
    requires x > 0
  {
    if x == 1 then 0 else 1 + FloorLog2(x / 2)
  }

  // ---------------------------------------------------------------- powers of two

  lemma {:induction false} Pow2Monotone(a: nat, b: nat)
    requires a <= b
    ensures Pow2(a) <= Pow2(b)
    ensures a < b ==> 2 * Pow2(a) <= Pow2(b)
    decreases b
  {
    if a < b {
      Pow2Monotone(a, b - 1);
    }
  }

  lemma {:induction false} Pow2Add(a: nat, b: nat)
    ensures Pow2(a + b) == Pow2(a) * Pow2(b)
  {
    if a == 0 {
      assert Pow2(0) == 1;
    } else {
      hide Pow2;
      Pow2Add(a - 1, b);
      Pow2Next(a - 1 + b);
      Pow2Next(a - 1);
      Twice(Pow2(a - 1), Pow2(b));
      assert a - 1 + b + 1 == a + b;
    }
  }

  lemma Pow2Next(k: nat)
    ensures Pow2(k + 1) == 2 * Pow2(k)
  {
  }

  lemma Twice(p: int, q: int)
    ensures (2 * p) * q == 2 * (p * q) == p * (2 * q)
  {
  }

  lemma Pow2Values()
    ensures Pow2(5) == 32
    ensures Pow2(10) == 1024
    ensures Pow2(24) == 0x100_0000
    ensures Pow2(32) == 0x1_0000_0000
    ensures Pow2(64) == 0x1_0000_0000_0000_0000
  {
    assert Pow2(5) == 32;
    Pow2Add(5, 5);
    Pow2Add(10, 10);
    assert Pow2(4) == 16;
    Pow2Add(20, 4);
    assert Pow2(3) == 8;
    Pow2Add(24, 8);
    Pow2Add(5, 3);
    Pow2Add(32, 32);
  }

  lemma {:induction false} FloorLog2Bounds(x: nat)
    requires x > 0
    ensures Pow2(FloorLog2(x)) <= x < 2 * Pow2(FloorLog2(x))
  {
    if x > 1 {
      FloorLog2Bounds(x / 2);
    }
  }

  /** The highest set bit is the only position whose binade contains `x`. */
  lemma {:induction false} FloorLog2Unique(x: nat, k: nat)
    requires Pow2(k) <= x < 2 * Pow2(k)
    ensures FloorLog2(x) == k
  {
    if k > 0 {
      assert Pow2(k) == 2 * Pow2(k - 1);
      FloorLog2Unique(x / 2, k - 1);
    }
  }

  lemma FloorLog2Monotone(x: nat, y: nat)
    requires 0 < x <= y
    ensures FloorLog2(x) <= FloorLog2(y)
  {
    FloorLog2Bounds(x);
    FloorLog2Bounds(y);
    if FloorLog2(y) < FloorLog2(x) {
      Pow2Monotone(FloorLog2(y), FloorLog2(x));
    }
  }

  // ---------------------------------------------------------------- bits of the operators

  lemma {:induction false} TestBitZero(i: nat)
    ensures !TestBit(0, i)
  {
    if i > 0 { TestBitZero(i - 1); }
  }

  lemma {:induction false} TestBitAnd(x: nat, y: nat, i: nat)
    ensures TestBit(And(x, y), i) <==> TestBit(x, i) && TestBit(y, i)
  {
    if x == 0 || y == 0 {
      TestBitZero(i);
    } else if i > 0 {
      TestBitAnd(x / 2, y / 2, i - 1);
      assert And(x, y) / 2 == And(x / 2, y / 2);
    }
  }

  lemma {:induction false} TestBitOr(x: nat, y: nat, i: nat)
    ensures TestBit(Or(x, y), i) <==> TestBit(x, i) || TestBit(y, i)
  {
    if x == 0 || y == 0 {
      TestBitZero(i);
    } else {
      OrHalf(x, y);
      hide Or;
      if i > 0 { TestBitOr(x / 2, y / 2, i - 1); }
    }
  }

  lemma OrHalf(x: nat, y: nat)
    requires x > 0 && y > 0
    ensures Or(x, y) / 2 == Or(x / 2, y / 2) && (Or(x, y) % 2 == 1 <==> x % 2 == 1 || y % 2 == 1)
  {
  }

  lemma {:induction false} TestBitPow2(k: nat, i: nat)
    ensures TestBit(Pow2(k), i) <==> i == k
  {
    if k == 0 {
      if i > 0 { TestBitZero(i - 1); }
    } else if i > 0 {
      TestBitPow2(k - 1, i - 1);
    }
  }

  lemma {:induction false} TestBitNot(w: nat, n: nat, i: nat)
    requires w < Pow2(n)
    ensures TestBit(Not(w, n), i) <==> i < n && !TestBit(w, i)
  {
    if n == 0 {
      TestBitZero(i);
    } else {
      NotHalf(w, n);
      hide Not, Pow2;
      if i > 0 { TestBitNot(w / 2, n - 1, i - 1); }
    }
  }

  /** Complementing complements the lowest bit and the rest. */
  lemma NotHalf(w: nat, n: nat)
    requires w < Pow2(n) && n > 0
    ensures w / 2 < Pow2(n - 1)
    ensures Not(w, n) / 2 == Not(w / 2, n - 1) && Not(w, n) % 2 == 1 - w % 2
  {
    Pow2Next(n - 1);
    hide Pow2;
  }

  lemma {:induction false} TestBitBelow(w: nat, n: nat, i: nat)
    requires w < Pow2(n) && n <= i
    ensures !TestBit(w, i)
  {
    if n == 0 {
      TestBitZero(i);
    } else {
      TestBitBelow(w / 2, n - 1, i - 1);
    }
  }

  /** A word is determined by its bits. */
  lemma {:induction false} SameBits(x: nat, y: nat)
    requires forall i: nat :: TestBit(x, i) == TestBit(y, i)
    ensures x == y
    decreases x + y
  {
    assert TestBit(x, 0) == TestBit(y, 0);
    if x + y > 0 {
      forall i: nat ensures TestBit(x / 2, i) == TestBit(y / 2, i) {
        assert TestBit(x, i + 1) == TestBit(y, i + 1);
      }
      SameBits(x / 2, y / 2);
    }
  }

  // ---------------------------------------------------------------- arithmetic of the masks

  /** Shifting and masking split a number at bit `k`. */
  lemma {:induction false} ShrLow(x: nat, k: nat)
    ensures x == Shr(x, k) * Pow2(k) + Low(x, k)
    ensures Low(x, k) < Pow2(k)
  {
    if k > 0 {
      ShrLow(x / 2, k - 1);
      Pow2Next(k - 1);
      ShrNext(x, k - 1);
      hide Shr, Low, Pow2;
      Twice(Shr(x / 2, k - 1), Pow2(k - 1));
    }
  }

  lemma ShrNext(x: nat, k: nat)
    ensures Shr(x, k + 1) == Shr(x / 2, k) && Low(x, k + 1) == x % 2 + 2 * Low(x / 2, k)
  {
  }

  /** Shifting by one less adds one bit. */
  lemma {:induction false} ShrOneLess(x: nat, k: nat)
    ensures Shr(x, k) == 2 * Shr(x, k + 1) + if TestBit(x, k) then 1 else 0
  {
    if k == 0 {
      assert Shr(x, 1) == Shr(x / 2, 0) == x / 2;
    } else {
      ShrOneLess(x / 2, k - 1);
    }
  }

  /** A number below `2^k` has nothing above bit `k`. */
  lemma {:induction false} ShrBelow(x: nat, k: nat)
    requires x < Pow2(k)
    ensures Shr(x, k) == 0
  {
    if k > 0 { ShrBelow(x / 2, k - 1); }
  }

  lemma {:induction false} ShrMonotone(x: nat, y: nat, k: nat)
    requires x <= y
    ensures Shr(x, k) <= Shr(y, k)
  {
    if k > 0 { ShrMonotone(x / 2, y / 2, k - 1); }
  }

  /** The split at bit `k` is unique. */
  lemma {:induction false} ShrLowUnique(x: nat, k: nat, q: nat, r: nat)
    requires x == q * Pow2(k) + r && r < Pow2(k)
    ensures Shr(x, k) == q && Low(x, k) == r
  {
    if k > 0 {
      var p := Pow2(k - 1);
      Pow2Next(k - 1);
      ShrNext(x, k - 1);
      hide Shr, Low, Pow2;
      Twice(q, p);
      ShrLowUnique(x / 2, k - 1, q, r / 2);
    }
  }

  lemma DivModUnique(x: int, d: int, q: int, r: int)
    requires d > 0 && 0 <= r < d && x == q * d + r
    ensures x / d == q && x % d == r
  {
    var e := x / d - q;
    assert e * d == r - x % d;
    assert e >= 1 ==> e * d >= d;
    assert e <= -1 ==> e * d <= -d;
  }

  lemma LowIsMod(x: nat, k: nat)
    ensures Low(x, k) == x % Pow2(k)
    ensures Shr(x, k) == x / Pow2(k)
  {
    ShrLow(x, k);
    DivModUnique(x, Pow2(k), Shr(x, k), Low(x, k));
  }

  /** `x & ((1 << k) - 1)` is the low part. */
  lemma {:induction false} AndLowMask(x: nat, k: nat)
    ensures And(x, Pow2(k) - 1) == Low(x, k)
  {
    if x == 0 {
      LowZero(k);
    } else if k > 0 {
      assert (Pow2(k) - 1) / 2 == Pow2(k - 1) - 1;
      AndLowMask(x / 2, k - 1);
    }
  }

  lemma {:induction false} LowZero(k: nat)
    ensures Low(0, k) == 0
  {
    if k > 0 { LowZero(k - 1); }
  }

  lemma {:induction false} LowBound(x: nat, k: nat)
    ensures Low(x, k) < Pow2(k) && Low(x, k) <= x
  {
    if k > 0 { LowBound(x / 2, k - 1); }
  }

  /** Adding a multiple of `1 << k` does not change the low bits. */
  lemma {:induction false} LowAdd(x: nat, y: nat, k: nat)
    requires Low(y, k) == 0
    ensures Low(x + y, k) == Low(x, k)
  {
    if k > 0 {
      assert y % 2 == 0 && Low(y / 2, k - 1) == 0;
      assert (x + y) / 2 == x / 2 + y / 2;
      LowAdd(x / 2, y / 2, k - 1);
    }
  }

  lemma {:induction false} LowPow2(k: nat, n: nat)
    requires k <= n
    ensures Low(Pow2(n), k) == 0
  {
    if k > 0 { LowPow2(k - 1, n - 1); }
  }

  /** A multiple of `1 << n` is a multiple of `1 << k`. */
  lemma {:induction false} LowWeaken(x: nat, k: nat, n: nat)
    requires k <= n && Low(x, n) == 0
    ensures Low(x, k) == 0
  {
    if k > 0 { LowWeaken(x / 2, k - 1, n - 1); }
  }

  /** One more low bit. */
  lemma {:induction false} LowStep(x: nat, k: nat)
    ensures Low(x, k + 1) == Low(x, k) + if TestBit(x, k) then Pow2(k) else 0
  {
    if k > 0 { LowStep(x / 2, k - 1); }
  }

  /** Clearing the low bits leaves a multiple. */
  lemma {:induction false} LowOfRounded(x: nat, k: nat)
    ensures Low(x, k) <= x && Low(x - Low(x, k), k) == 0
  {
    LowBound(x, k);
    if k > 0 {
      LowBound(x / 2, k - 1);
      assert (x - Low(x, k)) / 2 == x / 2 - Low(x / 2, k - 1);
      LowOfRounded(x / 2, k - 1);
    }
  }

  /** Multiples of `1 << k` less than `1 << k` apart are equal. */
  lemma {:induction false} MultiplesApart(a: nat, b: nat, k: nat)
    requires Low(a, k) == 0 && Low(b, k) == 0 && a <= b < a + Pow2(k)
    ensures a == b
  {
    if k > 0 { MultiplesApart(a / 2, b / 2, k - 1); }
  }

  /** Rounding up with a mask: the least multiple of `1 << k` that is at least `x`. */
  lemma RoundUp(x: nat, k: nat)
    ensures var y := x + Pow2(k) - 1;
            var r := y - Low(y, k);
            Low(y, k) <= y && Low(r, k) == 0 && x <= r < x + Pow2(k) && (Low(x, k) == 0 ==> r == x)
  {
    var y := x + Pow2(k) - 1;
    LowOfRounded(y, k);
    LowBound(y, k);
    if Low(x, k) == 0 { MultiplesApart(x, y - Low(y, k), k); }
  }

  /** A mask and its complement split a word. */
  lemma {:induction false} AndSplit(x: nat, m: nat, n: nat)
    requires x < Pow2(n) && m < Pow2(n)
    ensures And(x, m) + And(x, Not(m, n)) == x
  {
    if x > 0 {
      assert Not(m, n) / 2 == Not(m / 2, n - 1);
      AndSplit(x / 2, m / 2, n - 1);
    }
  }

  /** `x & !((1 << k) - 1)` on an `n`-bit word clears the low bits. */
  lemma AndHighMask(x: nat, k: nat, n: nat)
    requires k <= n && x < Pow2(n)
    requires Pow2(k) <= Pow2(n)
    ensures And(x, Not(Pow2(k) - 1, n)) == x - Low(x, k)
  {
    AndSplit(x, Pow2(k) - 1, n);
    AndLowMask(x, k);
  }

  lemma {:induction false} TopBitSet(x: nat)
    requires x > 0
    ensures TestBit(x, FloorLog2(x))
  {
    if x > 1 { TopBitSet(x / 2); }
  }

  /** `x ^ (1 << k)` flips one bit. */
  lemma {:induction false} XorPow2(x: nat, k: nat)
    ensures Xor(x, Pow2(k)) == if TestBit(x, k) then x - Pow2(k) else x + Pow2(k)
    ensures TestBit(x, k) ==> x >= Pow2(k)
  {
    if x == 0 {
      TestBitZero(k);
    } else if k > 0 {
      assert Pow2(k) / 2 == Pow2(k - 1) && Pow2(k) % 2 == 0;
      assert Xor(x, Pow2(k)) == x % 2 + 2 * Xor(x / 2, Pow2(k - 1));
      XorPow2(x / 2, k - 1);
    }
  }

  // ---------------------------------------------------------------- bitmap words

  /** `w |= 1 << k` on an `n`-bit word. */
  lemma SetBit(w: nat, k: nat, n: nat)
    requires w < Pow2(n) && k < n
    ensures Or(w, Pow2(k)) < Pow2(n)
    ensures forall i: nat :: TestBit(Or(w, Pow2(k)), i) <==> TestBit(w, i) || i == k
  {
    forall i: nat ensures TestBit(Or(w, Pow2(k)), i) <==> TestBit(w, i) || i == k {
      TestBitOr(w, Pow2(k), i);
      TestBitPow2(k, i);
    }
    Pow2Monotone(k, n);
    OrBound(w, Pow2(k), n);
  }

  lemma {:induction false} OrBound(x: nat, y: nat, n: nat)
    requires x < Pow2(n) && y < Pow2(n)
    ensures Or(x, y) < Pow2(n)
  {
    if x > 0 && y > 0 {
      OrBound(x / 2, y / 2, n - 1);
    }
  }

  lemma {:induction false} AndBound(x: nat, y: nat)
    ensures And(x, y) <= x && And(x, y) <= y
  {
    if x > 0 && y > 0 {
      AndBound(x / 2, y / 2);
    }
  }

  /** `w &= !(1 << k)` on an `n`-bit word. */
  lemma ClearBit(w: nat, k: nat, n: nat)
    requires w < Pow2(n) && k < n && Pow2(k) < Pow2(n)
    ensures And(w, Not(Pow2(k), n)) <= w
    ensures forall i: nat :: TestBit(And(w, Not(Pow2(k), n)), i) <==> TestBit(w, i) && i != k
  {
    AndBound(w, Not(Pow2(k), n));
    forall i: nat ensures TestBit(And(w, Not(Pow2(k), n)), i) <==> TestBit(w, i) && i != k {
      TestBitAnd(w, Not(Pow2(k), n), i);
      TestBitNot(Pow2(k), n, i);
      TestBitPow2(k, i);
      if i >= n { TestBitBelow(w, n, i); }
    }
  }

  /** `w & (!0 << k)` keeps the bits from `k` upward. */
  lemma MaskFrom(w: nat, k: nat, n: nat)
    requires w < Pow2(n) && k <= n && Pow2(k) <= Pow2(n)
    ensures And(w, Not(Pow2(k) - 1, n)) <= w
    ensures forall i: nat :: TestBit(And(w, Not(Pow2(k) - 1, n)), i) <==> TestBit(w, i) && i >= k
  {
    AndBound(w, Not(Pow2(k) - 1, n));
    forall i: nat
      ensures TestBit(And(w, Not(Pow2(k) - 1, n)), i) <==> TestBit(w, i) && i >= k
    {
      TestBitAnd(w, Not(Pow2(k) - 1, n), i);
      TestBitNot(Pow2(k) - 1, n, i);
      TestBitLowMask(k, i);
      if i >= n { TestBitBelow(w, n, i); }
    }
  }

  lemma {:induction false} TestBitLowMask(k: nat, i: nat)
    ensures TestBit(Pow2(k) - 1, i) <==> i < k
  {
    if k == 0 {
      TestBitZero(i);
    } else if i > 0 {
      assert (Pow2(k) - 1) / 2 == Pow2(k - 1) - 1;
      TestBitLowMask(k - 1, i - 1);
    }
  }

  /** `trailing_zeros` is the lowest set bit. */
  lemma {:induction false} TrailingZerosIsLowest(w: nat)
    requires w > 0
    ensures TestBit(w, TrailingZeros(w))
    ensures forall i: nat :: i < TrailingZeros(w) ==> !TestBit(w, i)
  {
    if w % 2 == 0 {
      TrailingZerosIsLowest(w / 2);
      forall i: nat | i < TrailingZeros(w) ensures !TestBit(w, i) {
        if i > 0 { assert TestBit(w, i) == TestBit(w / 2, i - 1); }
      }
    }
  }

  /** `w & (1 << k) != 0` tests bit `k`. */
  lemma AndPow2(w: nat, k: nat)
    ensures And(w, Pow2(k)) != 0 <==> TestBit(w, k)
  {
    var a := And(w, Pow2(k));
    ZeroIffNoBits(a);
    if a != 0 {
      var i: nat :| TestBit(a, i);
      TestBitAnd(w, Pow2(k), i);
      TestBitPow2(k, i);
    } else {
      TestBitAnd(w, Pow2(k), k);
      TestBitPow2(k, k);
    }
  }

  /** A word is zero exactly when no bit is set. */
  lemma ZeroIffNoBits(w: nat)
    ensures w == 0 ==> forall i: nat :: !TestBit(w, i)
    ensures w > 0 ==> exists i: nat :: TestBit(w, i)
  {
    if w == 0 {
      forall i: nat ensures !TestBit(w, i) { TestBitZero(i); }
    } else {
      TrailingZerosIsLowest(w);
      var low := TrailingZeros(w);
      assert TestBit(w, low);
    }
  }
}
