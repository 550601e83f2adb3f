/**
 * One cell of the grid (tower_t in include/skyskrapers/tower.h): its resolved
 * height, 0 while unresolved, and its candidate heights as a bitmask.  The
 * parent pointer, the copy of the grid size, the coordinates and the unused
 * `weight` field are not modelled: the size is passed to each operation and a
 * cell is identified by its index in the grid's cell array.
 *
 * The source updates cells in place through pointers into the grid's cell
 * array; here the two updating operations take that array and an index.
 */
module Towers {
  import opened Bitmask

  datatype Tower = Tower(height: int, options: Bits)

  /**
   * The cell invariant every operation keeps: a height in 0..size, a nonempty
   * candidate set inside heights 1..size, and a resolved cell whose only
   * candidate is its own height (see OkResolved).
   */
  predicate Ok(t: Tower, size: int)
  {
    1 <= size <= 8 && 0 <= t.height <= size && t.options != 0 &&
    Within(t.options, LowMask(size)) && (t.height != 0 ==> SingleHeight(t.options, size) == t.height)
  }

  /** A resolved well-formed cell holds its own height and no other. */
  lemma OkResolved(t: Tower, size: int)
    requires Ok(t, size) && t.height != 0
    ensures t.options == Bit(t.height)
    ensures forall h :: Has(t.options, h) <==> h == t.height
  {
    SingleHeightMeaning(t.options, size);
    forall h ensures Has(t.options, h) <==> h == t.height {
      BitHas(t.height, h);
    }
  }

  /** t2 is t1 narrowed: no candidate was added and a resolved height stayed. */
  predicate Narrower(t2: Tower, t1: Tower)
  {
    Within(t2.options, t1.options) && (t1.height != 0 ==> t2.height == t1.height)
  }

  /** tower_init: an unresolved cell holding the grid's mask. */
  function Init(mask: Bits): (t: Tower)
    ensures t.height == 0
    ensures forall h :: Has(t.options, h) <==> Has(mask, h)
  {
    Tower(0, mask)
  }

  /** With the full mask of the grid, a fresh cell keeps the invariant and may be any height. */
  lemma InitOk(size: int)
    requires 1 <= size <= 8
    ensures Ok(Init(LowMask(size)), size)
    ensures forall h :: Has(Init(LowMask(size)).options, h) <==> 1 <= h <= size
  {
    forall h ensures Has(LowMask(size), h) <==> 1 <= h <= size {
      LowMaskHas(size, h);
    }
  }

  /** tower_has_floors: the cell shares a candidate with mask m. */
  predicate HasFloors(t: Tower, m: Bits)
  {
    t.options & m != 0
  }

  // ---------------------------------------------------------------------------
  // Resolving a cell.

  /** The cell resolved to height h: that height is its only candidate. */
  function Resolved(h: int): (t: Tower)
    requires 1 <= h <= 8
    ensures t.height == h
    ensures forall k :: Has(t.options, k) <==> k == h
  {
    forall k ensures Has(Bit(h), k) <==> k == h {
      BitHas(h, k);
    }
    Tower(h, Bit(h))
  }

  lemma ResolvedOk(h: int, size: int)
    requires 1 <= h <= size <= 8
    ensures Ok(Resolved(h), size)
    ensures MinHeight(Resolved(h).options, size) == h
    ensures MaxHeight(Resolved(h).options, size) == h
  {
    BitWithin(h, size);
    BitNonZero(h);
    SingleHeightOfBit(h, size);
    MinMaxMeaning(Bit(h), size);
    BitHas(h, MinHeight(Bit(h), size));
    BitHas(h, MaxHeight(Bit(h), size));
  }

  /**
   * tower_set_height.  The source asserts 1 <= h <= size and that the cell is
   * unresolved or already h; the cell becomes Resolved(h), and the result says
   * whether the height was different before.
   */
  method SetHeight(a: array<Tower>, k: int, h: int, size: int) returns (changed: bool)
    requires 0 <= k < a.Length
    requires 1 <= h <= size <= 8
    requires a[k].height == 0 || a[k].height == h
    modifies a
    ensures a[k] == Resolved(h)
    ensures forall j :: 0 <= j < a.Length && j != k ==> a[j] == old(a[j])
    ensures changed <==> old(a[k].height) != h
  {
    var previous := a[k].height;
    a[k] := Resolved(h);
    changed := previous != h;
  }

  /** Resolving an unresolved cell, or one that already is h, to a candidate h narrows it. */
  lemma SetHeightNarrows(t: Tower, h: int, size: int)
    requires Ok(t, size) && 1 <= h <= size
    requires t.height == 0 || t.height == h
    requires Has(t.options, h)
    ensures Narrower(Resolved(h), t)
  {
    BitWithinHas(h, t.options);
  }

  // ---------------------------------------------------------------------------
  // Narrowing a cell.

  /**
   * tower_and_options on a cell: the candidates are intersected with m, and the
   * cell resolves when a single candidate h <= size is left.
   */
  function AndSpec(t: Tower, m: Bits, size: int): (r: Tower)
    requires 0 <= size <= 8
  {
    var o := t.options & m;
    var h := SingleHeight(o, size);
    Tower(if h != 0 then h else t.height, o)
  }

  /** Candidates of the narrowed cell are exactly the old ones that m allows. */
  lemma AndSpecOptions(t: Tower, m: Bits, size: int, h: int)
    requires 0 <= size <= 8
    ensures Has(AndSpec(t, m, size).options, h) <==> Has(t.options, h) && Has(m, h)
  {
    AndHas(t.options, m, h);
  }

  /**
   * The height after narrowing: h when one candidate h <= size is left, the
   * old height otherwise.
   */
  lemma AndSpecHeight(t: Tower, m: Bits, size: int)
    requires 0 <= size <= 8
    ensures forall h :: 1 <= h <= size && t.options & m == Bit(h) ==> AndSpec(t, m, size).height == h
    ensures (forall h :: 1 <= h <= size ==> t.options & m != Bit(h)) ==>
              AndSpec(t, m, size).height == t.height
  {
    var o := t.options & m;
    SingleHeightMeaning(o, size);
    forall h | 1 <= h <= size && o == Bit(h) ensures AndSpec(t, m, size).height == h {
      BitInjective(h, SingleHeight(o, size));
    }
  }

  /**
   * Narrowing a well-formed cell with a mask it meets keeps the invariant, only
   * removes candidates, and leaves a resolved cell as it was.
   */
  lemma AndSpecOk(t: Tower, m: Bits, size: int)
    requires Ok(t, size) && HasFloors(t, m)
    ensures Ok(AndSpec(t, m, size), size)
    ensures Narrower(AndSpec(t, m, size), t)
    ensures t.height != 0 ==> AndSpec(t, m, size) == t
  {
    if t.height != 0 {
      AndSpecKeepsResolved(t, m, size);
    } else {
      AndWithin(t.options, m, size);
      SingleHeightBound(t.options & m, size);
    }
  }

  /** A resolved cell meets m only in its own height, so narrowing leaves it alone. */
  lemma AndSpecKeepsResolved(t: Tower, m: Bits, size: int)
    requires Ok(t, size) && HasFloors(t, m) && t.height != 0
    ensures AndSpec(t, m, size) == t
  {
    OkResolved(t, size);
    BitMeets(t.height, m);
  }

  /** An intersection lies inside both of its operands' bounds. */
  lemma AndWithin(o: Bits, m: Bits, size: int)
    requires 0 <= size <= 8 && Within(o, LowMask(size))
    ensures Within(o & m, o) && Within(o & m, LowMask(size))
  {}

  /** Narrowing twice with the same mask is narrowing once. */
  lemma AndSpecIdempotent(t: Tower, m: Bits, size: int)
    requires 0 <= size <= 8
    ensures AndSpec(AndSpec(t, m, size), m, size) == AndSpec(t, m, size)
  {
    var o := t.options & m;
    assert o & m == o;
  }

  /**
   * tower_and_options.  The source asserts that the cell meets m.  The cell
   * becomes AndSpec of its old value, and the result says whether the
   * candidate set changed.
   */
  method AndOptions(a: array<Tower>, k: int, m: Bits, size: int) returns (changed: bool)
    requires 0 <= k < a.Length && 1 <= size <= 8
    requires HasFloors(a[k], m)
    modifies a
    ensures a[k] == AndSpec(old(a[k]), m, size)
    ensures forall j :: 0 <= j < a.Length && j != k ==> a[j] == old(a[j])
    ensures changed <==> a[k].options != old(a[k].options)
  {
    var before := a[k].options;
    var o := before & m;
    var h := SingleOf(o, size);
    a[k] := Tower(if h != 0 then h else a[k].height, o);
    changed := before != o;
  }

  /**
   * The guarded narrowing the rules use, tower_has_floors(t, m) followed by
   * tower_and_options(t, m): a cell that does not meet m is left alone.
   */
  function Narrow(t: Tower, m: Bits, size: int): Tower
    requires 0 <= size <= 8
  {
    if HasFloors(t, m) then AndSpec(t, m, size) else t
  }

  /**
   * Guarded narrowing keeps a well-formed cell well formed, never empties it,
   * only removes candidates, leaves a resolved cell alone, and keeps exactly the
   * candidates m allows unless none of them would survive.
   */
  lemma NarrowOk(t: Tower, m: Bits, size: int)
    requires Ok(t, size)
    ensures Ok(Narrow(t, m, size), size) && Narrower(Narrow(t, m, size), t)
    ensures t.height != 0 ==> Narrow(t, m, size) == t
    ensures HasFloors(t, m) ==> Narrow(t, m, size).options == t.options & m
    ensures !HasFloors(t, m) ==> Narrow(t, m, size) == t
  {
    if HasFloors(t, m) {
      AndSpecOk(t, m, size);
    }
  }

  /**
   * The guarded narrowing on the grid's cell array: narrow only when the cell
   * allows some height of m.
   */
  method TryNarrow(a: array<Tower>, k: int, m: Bits, size: int) returns (changed: bool)
    requires 0 <= k < a.Length && 1 <= size <= 8
    modifies a
    ensures a[k] == Narrow(old(a[k]), m, size)
    ensures forall j :: 0 <= j < a.Length && j != k ==> a[j] == old(a[j])
    ensures changed <==> a[k].options != old(a[k].options)
  {
    changed := false;
    if a[k].options & m != 0 {
      changed := AndOptions(a, k, m, size);
    }
  }

  /** The resolving scan of tower_and_options (see SingleHeightMeaning). */
  method SingleOf(o: Bits, size: int) returns (r: int)
    requires 1 <= size <= 8
    ensures r == SingleHeight(o, size)
  {
    var t: Bits := 1;
    var h := 1;
    while h <= size
      invariant 1 <= h <= size + 1
      invariant h <= size ==> t == Bit(h)
      invariant SingleFrom(o, h, size) == SingleHeight(o, size)
    {
      if t == o {
        return h;
      }
      if h < size {
        ShiftLeftBit(h);
      }
      t := t << 1;
      h := h + 1;
    }
    return 0;
  }

  // ---------------------------------------------------------------------------
  // Reading a cell.

  /** tower_get_min_height, by the source's upward scan. */
  method GetMinHeight(t: Tower, size: int) returns (r: int)
    requires 1 <= size <= 8
    ensures r == MinHeight(t.options, size)
  {
    if t.options == 0 {
      return 0;
    }
    var mask: Bits := 1;
    r := 1;
    while r <= size && t.options & mask == 0
      invariant 1 <= r <= size + 1
      invariant r <= size ==> mask == Bit(r)
      invariant MinFrom(t.options, r, size) == MinFrom(t.options, 1, size)
    {
      UpwardStep(t.options, mask, r, size);
      r := r + 1;
      mask := mask << 1;
    }
    UpwardStop(t.options, mask, r, size);
  }

  /** One step of the upward scan: height r is not held, and the probe moves to r + 1. */
  lemma UpwardStep(o: Bits, mask: Bits, r: int, size: int)
    requires 1 <= r <= size <= 8 && mask == Bit(r) && o & mask == 0
    ensures MinFrom(o, r + 1, size) == MinFrom(o, r, size)
    ensures r + 1 <= size ==> mask << 1 == Bit(r + 1)
  {
    if r < size {
      ShiftLeftBit(r);
    }
  }

  /** Where the upward scan stops, the lowest candidate from r on is r itself. */
  lemma UpwardStop(o: Bits, mask: Bits, r: int, size: int)
    requires 1 <= r <= size + 1 && size <= 8
    requires r <= size ==> mask == Bit(r) && o & mask != 0
    ensures MinFrom(o, r, size) == r
  {}

  /** tower_get_max_height, by the source's downward scan. */
  method GetMaxHeight(t: Tower, size: int) returns (r: int)
    requires 1 <= size <= 8
    ensures r == MaxHeight(t.options, size)
  {
    if t.options == 0 {
      return 0;
    }
    var mask := Bit(size);
    BitIsShift(size);
    r := size;
    while r > 0 && t.options & mask == 0
      invariant 0 <= r <= size
      invariant r > 0 ==> mask == Bit(r)
      invariant MaxFrom(t.options, r) == MaxFrom(t.options, size)
    {
      DownwardStep(t.options, mask, r);
      r := r - 1;
      mask := mask >> 1;
    }
    DownwardStop(t.options, mask, r);
  }

  /** One step of the downward scan: height r is not held, and the probe moves to r - 1. */
  lemma DownwardStep(o: Bits, mask: Bits, r: int)
    requires 1 <= r <= 8 && mask == Bit(r) && o & mask == 0
    ensures MaxFrom(o, r - 1) == MaxFrom(o, r)
    ensures r - 1 >= 1 ==> mask >> 1 == Bit(r - 1)
  {
    ShiftRightBit(r);
  }

  /** Where the downward scan stops, the highest candidate up to r is r itself. */
  lemma DownwardStop(o: Bits, mask: Bits, r: int)
    requires 0 <= r <= 8
    requires r > 0 ==> mask == Bit(r) && o & mask != 0
    ensures MaxFrom(o, r) == r
  {}

  /** For a well-formed cell the lowest and highest candidates lie in 1..size and bound all others. */
  lemma MinMaxOfCell(t: Tower, size: int)
    requires Ok(t, size)
    ensures 1 <= MinHeight(t.options, size) <= MaxHeight(t.options, size) <= size
    ensures forall h :: Has(t.options, h) ==> MinHeight(t.options, size) <= h <= MaxHeight(t.options, size)
    ensures Has(t.options, MinHeight(t.options, size)) && Has(t.options, MaxHeight(t.options, size))
  {
    MinMaxMeaning(t.options, size);
    forall h | Has(t.options, h) ensures h <= size {
      AndHas(t.options, !LowMask(size), h);
      NotHas(LowMask(size), h);
      LowMaskHas(size, h);
    }
  }

  /** tower_get_mask: a single bit grown upwards one height at a time. */
  method GetMask(bottom: int, top: int) returns (m: Bits)
    requires 1 <= bottom && top <= 8
    ensures m == Range(bottom, top)
  {
    if bottom > top {
      return 0;
    }
    m := Bit(bottom);
    BitIsRange(bottom);
    var t := top;
    while t > bottom
      invariant bottom <= t <= top
      invariant m == Range(bottom, bottom + (top - t))
    {
      RangeGrow(bottom, bottom + (top - t));
      m := m | (m << 1);
      t := t - 1;
    }
  }

  // ---------------------------------------------------------------------------
  // A line's cells, read out of the grid's cell array.

  /** The cells at the indices of line, in line order. */
  function Gather(g: seq<Tower>, line: seq<int>): (s: seq<Tower>)
    requires forall i :: 0 <= i < |line| ==> 0 <= line[i] < |g|
    ensures |s| == |line| && forall i :: 0 <= i < |line| ==> s[i] == g[line[i]]
  {
    seq(|line|, i requires 0 <= i < |line| => g[line[i]])
  }

  // ---------------------------------------------------------------------------
  // Counting unresolved cells, the measure that bounds the search.

  function Unresolved(s: seq<Tower>): (n: nat)
    ensures n <= |s|
  {
    if |s| == 0 then 0 else Unresolved(s[..|s| - 1]) + (if s[|s| - 1].height == 0 then 1 else 0)
  }

  /** Narrowing every cell never raises the count; resolving one more cell lowers it. */
  lemma {:induction false} UnresolvedNarrower(s2: seq<Tower>, s1: seq<Tower>)
    requires |s2| == |s1|
    requires forall i :: 0 <= i < |s1| ==> Narrower(s2[i], s1[i])
    ensures Unresolved(s2) <= Unresolved(s1)
    ensures (exists i :: 0 <= i < |s1| && s1[i].height == 0 && s2[i].height != 0) ==>
              Unresolved(s2) < Unresolved(s1)
  {
    if |s1| > 0 {
      var n := |s1| - 1;
      UnresolvedNarrower(s2[..n], s1[..n]);
      if exists i :: 0 <= i < |s1| && s1[i].height == 0 && s2[i].height != 0 {
        var i :| 0 <= i < |s1| && s1[i].height == 0 && s2[i].height != 0;
        if i < n {
          assert s1[..n][i] == s1[i] && s2[..n][i] == s2[i];
        }
      }
    }
  }
}
