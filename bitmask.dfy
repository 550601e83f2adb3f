/**
 * Candidate-height bitmasks.  Bit (h - 1) of a mask stands for height h, as in
 * the source, where masks live in a C `int`.  Puzzles are at most 8 wide, so
 * every height the source reads back lies in the low eight bits, and the model
 * uses 8-bit vectors with the same bitwise operators.  A few loops shift a mask
 * one place past the last height just before they stop; that bit falls off an
 * 8-bit vector, and no such value is ever read again.
 */
module Bitmask {
  type Bits = bv8

  /** The single-bit mask of height h, `1 << (h - 1)` (see BitIsShift). */
  function Bit(h: int): Bits
    requires 1 <= h <= 8
  {
    if h == 1 then 1 else if h == 2 then 2 else if h == 3 then 4
    else if h == 4 then 8 else if h == 5 then 16 else if h == 6 then 32
    else if h == 7 then 64 else 128
  }

  /** Heights 1..n: the low n bits, the value city_make accumulates for n = size. */
  function LowMask(n: int): Bits
    requires 0 <= n <= 8
  {
    if n == 0 then 0 else if n == 1 then 1 else if n == 2 then 3
    else if n == 3 then 7 else if n == 4 then 15 else if n == 5 then 31
    else if n == 6 then 63 else if n == 7 then 127 else 255
  }

  /** Height h is a candidate of mask o. */
  predicate Has(o: Bits, h: int)
  {
    1 <= h <= 8 && o & Bit(h) != 0
  }

  /** Mask a holds no height that mask b lacks. */
  predicate Within(a: Bits, b: Bits)
  {
    a & !b == 0
  }

  /** Heights b..t, and 0 when b > t. */
  function Range(b: int, t: int): Bits
    requires 1 <= b && t <= 8
  {
    if b > t then 0 else LowMask(t) & !LowMask(b - 1)
  }

  // ---------------------------------------------------------------------------
  // Bit-level facts, one height at a time.  Each is reduced to a fact about a
  // single-bit constant, which the solver settles bit by bit.

  /** A value with exactly one of the eight bits set. */
  predicate Single(c: Bits)
  {
    c == 1 || c == 2 || c == 4 || c == 8 || c == 16 || c == 32 || c == 64 || c == 128
  }

  lemma BitSingle(h: int)
    requires 1 <= h <= 8
    ensures Single(Bit(h))
  {}

  lemma BitIsShift(h: int)
    requires 1 <= h <= 8
    ensures Bit(h) == 1 << (h - 1)
  {
    if h == 1 {} else if h == 2 {} else if h == 3 {} else if h == 4 {}
    else if h == 5 {} else if h == 6 {} else if h == 7 {} else {}
  }

  lemma BitNonZero(h: int)
    requires 1 <= h <= 8
    ensures Bit(h) != 0
  {}

  lemma BitInjective(h1: int, h2: int)
    requires 1 <= h1 <= 8 && 1 <= h2 <= 8
    ensures Bit(h1) == Bit(h2) <==> h1 == h2
  {}

  lemma BitHas(k: int, h: int)
    requires 1 <= k <= 8
    ensures Has(Bit(k), h) <==> h == k
  {}

  lemma LowMaskHas(n: int, h: int)
    requires 0 <= n <= 8
    ensures Has(LowMask(n), h) <==> 1 <= h <= n
  {}

  lemma RangeHas(b: int, t: int, h: int)
    requires 1 <= b && t <= 8
    ensures Has(Range(b, t), h) <==> b <= h <= t
  {
    if b <= t && 1 <= h <= 8 {
      SingleAnd(LowMask(t), !LowMask(b - 1), Bit(h));
      SingleNot(LowMask(b - 1), Bit(h));
      LowMaskHas(t, h);
      LowMaskHas(b - 1, h);
    }
  }

  lemma SingleAnd(a: Bits, b: Bits, c: Bits)
    requires Single(c)
    ensures (a & b) & c != 0 <==> a & c != 0 && b & c != 0
  {}

  lemma SingleOr(a: Bits, b: Bits, c: Bits)
    ensures (a | b) & c != 0 <==> a & c != 0 || b & c != 0
  {}

  lemma SingleNot(a: Bits, c: Bits)
    requires Single(c)
    ensures !a & c != 0 <==> a & c == 0
  {}

  lemma SingleXor(a: Bits, b: Bits, c: Bits)
    requires Single(c)
    ensures (a ^ b) & c != 0 <==> (a & c != 0) != (b & c != 0)
  {}

  lemma SingleWithin(a: Bits, c: Bits)
    requires Single(c)
    ensures c & !a == 0 <==> a & c != 0
  {}

  lemma SingleMeets(a: Bits, c: Bits)
    requires Single(c) && c & a != 0
    ensures c & a == c
  {}

  lemma AndHas(a: Bits, b: Bits, h: int)
    ensures Has(a & b, h) <==> Has(a, h) && Has(b, h)
  {
    if 1 <= h <= 8 {
      SingleAnd(a, b, Bit(h));
    }
  }

  lemma OrHas(a: Bits, b: Bits, h: int)
    ensures Has(a | b, h) <==> Has(a, h) || Has(b, h)
  {
    if 1 <= h <= 8 {
      SingleOr(a, b, Bit(h));
    }
  }

  lemma NotHas(a: Bits, h: int)
    requires 1 <= h <= 8
    ensures Has(!a, h) <==> !Has(a, h)
  {
    SingleNot(a, Bit(h));
  }

  lemma XorHas(a: Bits, b: Bits, h: int)
    requires 1 <= h <= 8
    ensures Has(a ^ b, h) <==> Has(a, h) != Has(b, h)
  {
    SingleXor(a, b, Bit(h));
  }

  /** A single bit lies inside exactly the masks that hold its height. */
  lemma BitWithinHas(h: int, o: Bits)
    requires 1 <= h <= 8
    ensures Within(Bit(h), o) <==> Has(o, h)
  {
    SingleWithin(o, Bit(h));
  }

  /** A single bit lies inside the low mask of any height at or above it. */
  lemma BitWithin(h: int, n: int)
    requires 1 <= h <= n <= 8
    ensures Within(Bit(h), LowMask(n))
  {
    BitWithinHas(h, LowMask(n));
    LowMaskHas(n, h);
  }

  /** A single bit that meets a mask is left whole by the intersection. */
  lemma BitMeets(h: int, m: Bits)
    requires 1 <= h <= 8 && Bit(h) & m != 0
    ensures Bit(h) & m == Bit(h)
  {
    SingleMeets(m, Bit(h));
  }

  /** Two masks are equal when they agree on every height. */
  lemma Extensional(x: Bits, y: Bits)
    requires forall h :: 1 <= h <= 8 ==> (Has(x, h) <==> Has(y, h))
    ensures x == y
  {
    assert Has(x, 1) == Has(y, 1) && Has(x, 2) == Has(y, 2) && Has(x, 3) == Has(y, 3);
    assert Has(x, 4) == Has(y, 4) && Has(x, 5) == Has(y, 5) && Has(x, 6) == Has(y, 6);
    assert Has(x, 7) == Has(y, 7) && Has(x, 8) == Has(y, 8);
  }

  lemma ShiftLeftBit(h: int)
    requires 1 <= h <= 7
    ensures Bit(h) << 1 == Bit(h + 1)
  {}

  lemma ShiftRightBit(h: int)
    requires 1 <= h <= 8
    ensures Bit(h) >> 1 == if h == 1 then 0 else Bit(h - 1)
  {
    if h > 1 {
    }
  }

  lemma ShiftLeftRange(b: int, t: int)
    requires 1 <= b && t <= 7
    ensures Range(b, t) << 1 == Range(b + 1, t + 1)
  {
    if b <= t {
    }
  }

  lemma RangeGrow(b: int, t: int)
    requires 1 <= b <= t <= 7
    ensures Range(b, t) | (Range(b, t) << 1) == Range(b, t + 1)
  {
  }

  lemma BitIsRange(h: int)
    requires 1 <= h <= 8
    ensures Bit(h) == Range(h, h)
  {
  }

  /** Capping a mask at height c keeps exactly its heights up to c. */
  lemma LowMaskAnd(o: Bits, c: int, h: int)
    requires 0 <= c <= 8
    ensures Has(o & LowMask(c), h) <==> Has(o, h) && h <= c
  {
    AndHas(o, LowMask(c), h);
    LowMaskHas(c, h);
  }

  lemma LowMaskAndAll(o: Bits, c: int)
    requires 0 <= c <= 8
    ensures forall h :: Has(o & LowMask(c), h) <==> Has(o, h) && h <= c
  {
    forall h ensures Has(o & LowMask(c), h) <==> Has(o, h) && h <= c {
      LowMaskAnd(o, c, h);
    }
  }

  /** city_make's mask loop: or-ing in the next height's bit grows the low mask by one height. */
  lemma LowMaskGrow(n: int)
    requires 0 <= n <= 7
    ensures LowMask(n) | Bit(n + 1) == LowMask(n + 1)
  {}

  /**
   * `m >> n` on the C int holding an 8-bit mask: every bit is gone once n
   * reaches 8, which a bv8 shift cannot be asked for beyond 8.
   */
  function ShiftRight(m: Bits, n: int): Bits
    requires 0 <= n
  {
    if n >= 8 then 0 else m >> n
  }

  /** first_of_two's mask: the full mask shifted down by size + 1 - limit holds the heights below limit. */
  lemma LowMaskShift(size: int, limit: int)
    requires 0 <= limit <= size <= 8
    ensures ShiftRight(LowMask(size), size + 1 - limit) == (if limit == 0 then 0 else LowMask(limit - 1))
  {}

  lemma ShiftRightLow(n: int)
    requires 1 <= n <= 8
    ensures LowMask(n) >> 1 == LowMask(n - 1)
  {
  }

  /** method_slope's mask of the tallest height: the full mask without its lower part. */
  lemma TopOfLowMask(n: int)
    requires 1 <= n <= 8
    ensures LowMask(n) ^ (LowMask(n) >> 1) == Bit(n)
  {
    if n == 1 {} else if n == 2 {} else if n == 3 {} else if n == 4 {}
    else if n == 5 {} else if n == 6 {} else if n == 7 {} else {}
  }

  // ---------------------------------------------------------------------------
  // Lowest and highest candidate heights, and counting candidates.

  /** The first height from h upwards that o holds, or size + 1 when none up to size does. */
  function MinFrom(o: Bits, h: int, size: int): (r: int)
    requires 1 <= h <= size + 1 && size <= 8
    decreases size + 1 - h
  {
    if h > size || Has(o, h) then h else MinFrom(o, h + 1, size)
  }

  /** The lowest candidate height, 0 for the empty mask. */
  function MinHeight(o: Bits, size: int): int
    requires 0 <= size <= 8
  {
    if o == 0 then 0 else MinFrom(o, 1, size)
  }

  /** The first height from h downwards that o holds, or 0 when none does. */
  function MaxFrom(o: Bits, h: int): (r: int)
    requires 0 <= h <= 8
  {
    if h == 0 || Has(o, h) then h else MaxFrom(o, h - 1)
  }

  /** The highest candidate height, 0 for the empty mask. */
  function MaxHeight(o: Bits, size: int): int
    requires 0 <= size <= 8
  {
    if o == 0 then 0 else MaxFrom(o, size)
  }

  lemma {:induction false} MinFromIsLeast(o: Bits, h: int, size: int)
    requires 1 <= h <= size + 1 && size <= 8
    ensures h <= MinFrom(o, h, size) <= size + 1
    ensures MinFrom(o, h, size) <= size ==> Has(o, MinFrom(o, h, size))
    ensures forall k :: h <= k < MinFrom(o, h, size) ==> !Has(o, k)
    decreases size + 1 - h
  {
    if h <= size && !Has(o, h) {
      MinFromIsLeast(o, h + 1, size);
    }
  }

  lemma {:induction false} MaxFromIsGreatest(o: Bits, h: int)
    requires 0 <= h <= 8
    ensures 0 <= MaxFrom(o, h) <= h
    ensures MaxFrom(o, h) >= 1 ==> Has(o, MaxFrom(o, h))
    ensures forall k :: MaxFrom(o, h) < k <= h ==> !Has(o, k)
  {
    if h > 0 && !Has(o, h) {
      MaxFromIsGreatest(o, h - 1);
    }
  }

  /** A nonempty mask inside heights 1..size has at least one height there. */
  lemma NonEmptyHasHeight(o: Bits, size: int)
    requires 1 <= size <= 8 && o != 0 && Within(o, LowMask(size))
    ensures exists h :: 1 <= h <= size && Has(o, h)
  {
    MinFromIsLeast(o, 1, 8);
    var h := MinFrom(o, 1, 8);
    if h == 9 {
      Extensional(o, 0);
    }
    AndHas(o, !LowMask(size), h);
    NotHas(LowMask(size), h);
    LowMaskHas(size, h);
  }

  /** The tallest candidate of a mask is at most size. */
  lemma MaxAtMost(o: Bits, size: int)
    requires 0 <= size <= 8
    ensures 0 <= MaxHeight(o, size) <= size
  {
    if o != 0 {
      MaxFromAtMost(o, size);
    }
  }

  lemma {:induction false} MaxFromAtMost(o: Bits, h: int)
    requires 0 <= h <= 8
    ensures 0 <= MaxFrom(o, h) <= h
    decreases h
  {
    if h > 0 && !Has(o, h) {
      MaxFromAtMost(o, h - 1);
    }
  }

  /**
   * For a nonempty mask inside heights 1..size, MinHeight and MaxHeight are the
   * lowest and highest candidate heights, with 1 <= min <= max <= size.
   */
  lemma MinMaxMeaning(o: Bits, size: int)
    requires 1 <= size <= 8 && o != 0 && Within(o, LowMask(size))
    ensures 1 <= MinHeight(o, size) <= MaxHeight(o, size) <= size
    ensures Has(o, MinHeight(o, size)) && Has(o, MaxHeight(o, size))
    ensures forall h :: 1 <= h < MinHeight(o, size) ==> !Has(o, h)
    ensures forall h :: MaxHeight(o, size) < h <= size ==> !Has(o, h)
  {
    NonEmptyHasHeight(o, size);
    var w :| 1 <= w <= size && Has(o, w);
    MinFromIsLeast(o, 1, size);
    MaxFromIsGreatest(o, size);
  }

  lemma MinMaxOfEmpty(size: int)
    requires 0 <= size <= 8
    ensures MinHeight(0, size) == 0 && MaxHeight(0, size) == 0
  {}

  /** The height h in 1..size whose single bit o is, or 0 when o is not such a bit. */
  function SingleFrom(o: Bits, h: int, size: int): (r: int)
    requires 1 <= h <= size + 1 && size <= 8
    decreases size + 1 - h
  {
    if h > size then 0 else if o == Bit(h) then h else SingleFrom(o, h + 1, size)
  }

  function SingleHeight(o: Bits, size: int): int
    requires 0 <= size <= 8
  {
    SingleFrom(o, 1, size)
  }

  lemma {:induction false} SingleFromMeaning(o: Bits, h: int, size: int)
    requires 1 <= h <= size + 1 && size <= 8
    ensures var r := SingleFrom(o, h, size);
      (r == 0 || (h <= r <= size && o == Bit(r))) &&
      (r == 0 <==> forall k :: h <= k <= size ==> o != Bit(k))
    decreases size + 1 - h
  {
    if h <= size && o != Bit(h) {
      SingleFromMeaning(o, h + 1, size);
    }
  }

  /** SingleHeight(o, size) is h exactly when o is the single bit of height h <= size. */
  lemma SingleHeightMeaning(o: Bits, size: int)
    requires 0 <= size <= 8
    ensures 0 <= SingleHeight(o, size) <= size
    ensures SingleHeight(o, size) != 0 ==> o == Bit(SingleHeight(o, size))
    ensures SingleHeight(o, size) == 0 <==> forall k :: 1 <= k <= size ==> o != Bit(k)
  {
    SingleFromMeaning(o, 1, size);
  }

  lemma SingleHeightBound(o: Bits, size: int)
    requires 0 <= size <= 8
    ensures 0 <= SingleHeight(o, size) <= size
  {
    SingleHeightMeaning(o, size);
  }

  lemma SingleHeightOfBit(h: int, size: int)
    requires 1 <= h <= size <= 8
    ensures SingleHeight(Bit(h), size) == h
  {
    SingleHeightMeaning(Bit(h), size);
    if SingleHeight(Bit(h), size) != h {
      BitInjective(h, SingleHeight(Bit(h), size));
    }
  }

  // ---------------------------------------------------------------------------
  // Counting heights.

  /** How many of heights 1..n mask o holds. */
  function PopCount(o: Bits, n: int): (c: int)
    requires 0 <= n <= 8
    ensures 0 <= c <= n
  {
    if n == 0 then 0 else PopCount(o, n - 1) + (if Has(o, n) then 1 else 0)
  }

  /** Masks that agree on heights 1..n count the same there. */
  lemma {:induction false} PopCountSame(a: Bits, b: Bits, n: int)
    requires 0 <= n <= 8
    requires forall h :: 1 <= h <= n ==> (Has(a, h) <==> Has(b, h))
    ensures PopCount(a, n) == PopCount(b, n)
  {
    if n > 0 {
      PopCountSame(a, b, n - 1);
      assert Has(a, n) == Has(b, n);
    }
  }

  /** Counting more heights never counts fewer. */
  lemma {:induction false} PopCountMono(o: Bits, m: int, n: int)
    requires 0 <= m <= n <= 8
    ensures PopCount(o, m) <= PopCount(o, n)
    decreases n - m
  {
    if m < n {
      PopCountMono(o, m, n - 1);
    }
  }

  /** A mask inside heights 1..n has no height n + 1. */
  lemma WithinLowMiss(o: Bits, n: int)
    requires 0 <= n <= 7 && Within(o, LowMask(n))
    ensures !Has(o, n + 1)
  {
    AndHas(o, !LowMask(n), n + 1);
    NotHas(LowMask(n), n + 1);
    LowMaskHas(n, n + 1);
    BitNonZero(n + 1);
  }

  /** A mask inside heights 1..n also lies inside 1..n + 1. */
  lemma WithinLowGrow(o: Bits, n: int)
    requires 0 <= n <= 7 && Within(o, LowMask(n))
    ensures Within(o, LowMask(n + 1))
  {
    assert LowMask(n) & !LowMask(n + 1) == 0;
  }

  /** Adding height n + 1 to a mask inside 1..n: the mask grows by one height. */
  lemma AddTopBit(o: Bits, n: int)
    requires 0 <= n <= 7 && Within(o, LowMask(n))
    ensures Within(o | Bit(n + 1), LowMask(n + 1))
    ensures PopCount(o | Bit(n + 1), n + 1) == PopCount(o, n) + 1
  {
    AddTopWithin(o, n);
    AddTopAgrees(o, n);
    PopCountSame(o | Bit(n + 1), o, n);
    OrBitBelow(o, n + 1, n + 1);
  }

  lemma AddTopWithin(o: Bits, n: int)
    requires 0 <= n <= 7 && Within(o, LowMask(n))
    ensures Within(o | Bit(n + 1), LowMask(n + 1))
  {
    WithinLowGrow(o, n);
    BitWithin(n + 1, n + 1);
    WithinOr(o, Bit(n + 1), LowMask(n + 1));
  }

  lemma AddTopAgrees(o: Bits, n: int)
    requires 0 <= n <= 7
    ensures forall h :: 1 <= h <= n ==> (Has(o | Bit(n + 1), h) <==> Has(o, h))
  {
    forall h | 1 <= h <= n ensures Has(o | Bit(n + 1), h) <==> Has(o, h) {
      OrBitBelow(o, n + 1, h);
    }
  }

  lemma WithinOr(a: Bits, b: Bits, c: Bits)
    requires Within(a, c) && Within(b, c)
    ensures Within(a | b, c)
  {}

  /** Or-ing in the bit of height k adds height k and no other. */
  lemma OrBitBelow(o: Bits, k: int, h: int)
    requires 1 <= k <= 8
    ensures Has(o | Bit(k), h) <==> Has(o, h) || h == k
  {
    OrHas(o, Bit(k), h);
    BitHas(k, h);
  }

  /** Leaving height n + 1 out of a mask inside 1..n: the count stays. */
  lemma SkipTopBit(o: Bits, n: int)
    requires 0 <= n <= 7 && Within(o, LowMask(n))
    ensures Within(o, LowMask(n + 1))
    ensures PopCount(o, n + 1) == PopCount(o, n)
  {
    WithinLowGrow(o, n);
    WithinLowMiss(o, n);
  }
}
