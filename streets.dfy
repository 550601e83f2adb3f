/**
 * One line of the grid seen from one edge (street_t in
 * include/skyskrapers/street.h and src/core/street.c): its side and position,
 * its clue, whether it is still consistent, and the statistics the deduction
 * rules read: where the tallest building may stand, the certainly visible
 * buildings, the vacant cells and the hills of Module Hills.
 *
 * A street is a value stored in the grid's street array; its cells are the
 * indices, into the grid's cell array, of the cells the source reaches through
 * its `towers` pointers.  The operations that change cells take that array.
 */
module Streets {
  import opened Bitmask
  import opened Towers
  import opened Geometry
  import opened Hills
  import opened Views

  datatype Street = Street(side: int, pos: int, clue: int, valid: bool,
                           highestFirst: int, highestLast: int, visible: int, vacant: int,
                           hills: seq<Hill>, cells: seq<int>)

  datatype Option<T> = None | Some(value: T)

  // ---------------------------------------------------------------------------
  // street_make.

  /** The argument check of street_make as written: the side must be below the grid size. */
  predicate MakeAccepts(size: int, side: int, pos: int)
  {
    0 <= side < size && 0 <= pos < size
  }

  /**
   * city_make builds the streets side by side, TOP first, so on a grid of size
   * 1 to 3 the check accepts the first size sides and rejects the first street
   * of side number size: RIGHT for size 1, BOTTOM for size 2, LEFT for size 3.
   */
  lemma MakeRejectsSmallGrid()
    ensures !MakeAccepts(1, RIGHT, 0) && !MakeAccepts(2, BOTTOM, 0) && !MakeAccepts(3, LEFT, 0)
    ensures forall size, side :: 1 <= size <= 3 && 0 <= side < 4 ==> (MakeAccepts(size, side, 0) <==> side < size)
  {}

  /** From size 4 on, the check as written accepts exactly the sides the grid has. */
  lemma MakeAcceptsLargeGrid(size: int, side: int, pos: int)
    requires 4 <= size && 0 <= side < 4
    ensures MakeAccepts(size, side, pos) <==> 0 <= pos < size
  {}

  /** A street whose cells are the line (side, pos) and whose statistics are all cleared. */
  predicate Fresh(st: Street, size: int, side: int, pos: int)
    requires 1 <= size && 0 <= side < 4 && 0 <= pos < size
  {
    st == Street(side, pos, 0, true, 0, 0, 0, 0, [], Line(size, side, pos))
  }

  /**
   * street_make, with the side checked against the four sides (see
   * MakeAccepts): the index-th cell of the street is the index-th cell of the
   * line, the clue is 0 and the street is valid.
   */
  method Make(size: int, side: int, pos: int) returns (st: Street)
    requires 1 <= size && 0 <= side < 4 && 0 <= pos < size
    ensures Fresh(st, size, side, pos)
    ensures |st.cells| == size && forall i :: 0 <= i < size ==> st.cells[i] == CellOf(size, side, pos, i)
  {
    var cells: seq<int> := [];
    var i := 0;
    while i < size
      invariant 0 <= i <= size && |cells| == i
      invariant forall k :: 0 <= k < i ==> cells[k] == CellOf(size, side, pos, k)
    {
      cells := cells + [CellOf(size, side, pos, i)];
      i := i + 1;
    }
    st := Street(side, pos, 0, true, 0, 0, 0, 0, [], cells);
  }

  // ---------------------------------------------------------------------------
  // The restrictions a clue puts on its line before any search
  // (street_fast_constraint, repeated inline in city_load).

  /** How many times the mask has been halved when cell k is reached with an intermediate clue. */
  function ShiftCount(clue: int, k: int, size: int): (c: int)
    requires 0 <= k && 0 <= size
    ensures 0 <= c <= size
  {
    var c := Min(size, clue - 1) - k;
    if c > 0 then c else 0
  }

  /** The mask cell k gets with an intermediate clue: heights up to size - ShiftCount. */
  function ClueMask(clue: int, k: int, size: int): Bits
    requires 0 <= k && 1 <= size <= 8
  {
    LowMask(size - ShiftCount(clue, k, size))
  }

  /**
   * What the restriction of a line with this clue makes of its k-th cell, or
   * None when the source's tower_set_height would fail its assertion (the
   * cell is already resolved to another height).
   */
  function RestrictCell(t: Tower, k: int, clue: int, size: int): Option<Tower>
    requires 0 <= k < size <= 8
  {
    if clue == 1 then
      if k == 0 then (if t.height == 0 || t.height == size then Some(Resolved(size)) else None)
      else Some(Narrow(t, LowMask(size - 1), size))
    else if clue == size then
      if t.height == 0 || t.height == k + 1 then Some(Resolved(k + 1)) else None
    else
      Some(Narrow(t, ClueMask(clue, k, size), size))
  }

  /** Every cell of the line can be restricted: no assertion of the source fails. */
  predicate Restrictable(cells: seq<Tower>, clue: int, size: int)
    requires |cells| == size <= 8
  {
    forall k :: 0 <= k < size ==> RestrictCell(cells[k], k, clue, size).Some?
  }

  /**
   * The restriction of the line with this clue, as street_fast_constraint and
   * city_load perform it: clue 1 puts the tallest building first and removes
   * that height from the others; clue size builds the staircase 1..size; any
   * other clue caps the cell k at height size - ShiftCount(clue, k, size).
   * The result is false when a tower_set_height assertion of the source would
   * fail; the cells not on the line are never touched.
   */
  method Restrict(a: array<Tower>, line: seq<int>, clue: int, size: int, mask: Bits) returns (ok: bool)
    requires 1 <= size <= 8 && |line| == size && mask == LowMask(size) && Distinct(line, a.Length)
    modifies a
    ensures ok <==> Restrictable(Gather(old(a[..]), line), clue, size)
    ensures ok ==> forall k :: 0 <= k < size ==> Some(a[line[k]]) == RestrictCell(old(a[line[k]]), k, clue, size)
    ensures forall j :: 0 <= j < a.Length && j !in line ==> a[j] == old(a[j])
  {
    ghost var before := Gather(a[..], line);
    if clue == 1 {
      ok := RestrictFirst(a, line, size, mask);
    } else if clue == size {
      ok := RestrictAll(a, line, size);
      assert ok ==> Restrictable(before, clue, size);
    } else {
      RestrictCapped(a, line, clue, size, mask);
      ok := true;
      assert Restrictable(before, clue, size);
    }
  }

  /** Clue 1: the first cell is the tallest, so no other cell can be. */
  method RestrictFirst(a: array<Tower>, line: seq<int>, size: int, mask: Bits) returns (ok: bool)
    requires 1 <= size <= 8 && |line| == size && mask == LowMask(size) && Distinct(line, a.Length)
    modifies a
    ensures ok <==> Restrictable(Gather(old(a[..]), line), 1, size)
    ensures ok ==> forall k :: 0 <= k < size ==> Some(a[line[k]]) == RestrictCell(old(a[line[k]]), k, 1, size)
    ensures forall j :: 0 <= j < a.Length && j !in line ==> a[j] == old(a[j])
  {
    var t := a[line[0]];
    if t.height != 0 && t.height != size {
      assert RestrictCell(Gather(old(a[..]), line)[0], 0, 1, size).None?;
      return false;
    }
    var _ := SetHeight(a, line[0], size, size);
    var options := mask >> 1;
    ShiftRightLow(size);
    var i := 1;
    while i < size
      invariant 1 <= i <= size
      invariant forall k :: 0 <= k < i ==> Some(a[line[k]]) == RestrictCell(old(a[line[k]]), k, 1, size)
      invariant forall k :: i <= k < size ==> a[line[k]] == old(a[line[k]])
      invariant forall j :: 0 <= j < a.Length && j !in line ==> a[j] == old(a[j])
    {
      var _ := TryNarrow(a, line[i], options, size);
      i := i + 1;
    }
    ok := true;
  }

  /** Clue size: every building is visible, so the line rises 1, 2, ..., size. */
  method RestrictAll(a: array<Tower>, line: seq<int>, size: int) returns (ok: bool)
    requires 1 <= size <= 8 && |line| == size && Distinct(line, a.Length)
    modifies a
    ensures ok <==> Restrictable(Gather(old(a[..]), line), size, size)
    ensures ok ==> forall k :: 0 <= k < size ==> Some(a[line[k]]) == RestrictCell(old(a[line[k]]), k, size, size)
    ensures forall j :: 0 <= j < a.Length && j !in line ==> a[j] == old(a[j])
  {
    ghost var before := Gather(a[..], line);
    var i := 0;
    while i < size
      invariant 0 <= i <= size
      invariant forall k :: 0 <= k < i ==> RestrictCell(before[k], k, size, size).Some?
      invariant forall k :: 0 <= k < i ==> Some(a[line[k]]) == RestrictCell(old(a[line[k]]), k, size, size)
      invariant forall k :: i <= k < size ==> a[line[k]] == old(a[line[k]])
      invariant forall j :: 0 <= j < a.Length && j !in line ==> a[j] == old(a[j])
    {
      var t := a[line[i]];
      if t.height != 0 && t.height != i + 1 {
        assert RestrictCell(before[i], i, size, size).None?;
        return false;
      }
      var _ := SetHeight(a, line[i], i + 1, size);
      i := i + 1;
    }
    ok := true;
  }

  /**
   * Any other clue: walking the line from its far end, the mask loses its top
   * height at every index below the clue, so that the cell k keeps at most
   * heights up to size - ShiftCount(clue, k, size).
   */
  method RestrictCapped(a: array<Tower>, line: seq<int>, clue: int, size: int, mask: Bits)
    requires 1 <= size <= 8 && |line| == size && mask == LowMask(size) && Distinct(line, a.Length)
    modifies a
    ensures forall k :: 0 <= k < size ==> a[line[k]] == Narrow(old(a[line[k]]), ClueMask(clue, k, size), size)
    ensures forall j :: 0 <= j < a.Length && j !in line ==> a[j] == old(a[j])
  {
    ghost var g := a[..];
    var options := mask;
    var i := size;
    while i > 0
      invariant 0 <= i <= size
      invariant options == LowMask(size - ShiftCount(clue, i, size))
      invariant a[..] == Capped(g, line, clue, size, i)
    {
      ShiftCountStep(clue, i, size);
      if i < clue {
        ShiftRightLow(size - ShiftCount(clue, i, size));
        options := options >> 1;
      }
      CapAt(a, line, clue, size, i - 1, options, g);
      i := i - 1;
    }
    CappedAt(g, line, clue, size, 0);
  }

  /** The line after its cells i .. size-1 were capped, each with its own mask. */
  function Capped(g: seq<Tower>, line: seq<int>, clue: int, size: int, i: int): (r: seq<Tower>)
    requires 1 <= size <= 8 && |line| == size && Distinct(line, |g|) && 0 <= i <= size
    ensures |r| == |g|
    decreases size - i
  {
    if i == size then g
    else Capped(g, line, clue, size, i + 1)[line[i] := Narrow(g[line[i]], ClueMask(clue, i, size), size)]
  }

  /** After capping from i on, the cells from i on are capped and every other cell is as it was. */
  lemma {:induction false} CappedAt(g: seq<Tower>, line: seq<int>, clue: int, size: int, i: int)
    requires 1 <= size <= 8 && |line| == size && Distinct(line, |g|) && 0 <= i <= size
    ensures forall k :: i <= k < size ==> Capped(g, line, clue, size, i)[line[k]] == Narrow(g[line[k]], ClueMask(clue, k, size), size)
    ensures forall k :: 0 <= k < i ==> Capped(g, line, clue, size, i)[line[k]] == g[line[k]]
    ensures forall j :: 0 <= j < |g| && j !in line ==> Capped(g, line, clue, size, i)[j] == g[j]
    decreases size - i
  {
    if i < size {
      CappedAt(g, line, clue, size, i + 1);
    }
  }

  /** One step of the capping loop: the guarded narrowing of cell i with its mask. */
  method CapAt(a: array<Tower>, line: seq<int>, clue: int, size: int, i: int, options: Bits, ghost g: seq<Tower>)
    requires 1 <= size <= 8 && |line| == size && Distinct(line, a.Length) && |g| == a.Length && 0 <= i < size
    requires options == ClueMask(clue, i, size) && a[..] == Capped(g, line, clue, size, i + 1)
    modifies a
    ensures a[..] == Capped(g, line, clue, size, i)
  {
    CappedAt(g, line, clue, size, i + 1);
    assert a[line[i]] == g[line[i]];
    var _ := TryNarrow(a, line[i], options, size);
  }

  /** Stepping back one cell halves the mask exactly when the index is below the clue. */
  lemma ShiftCountStep(clue: int, i: int, size: int)
    requires 1 <= i <= size
    ensures ShiftCount(clue, i - 1, size) == if i < clue then ShiftCount(clue, i, size) + 1 else ShiftCount(clue, i, size)
  {}

  /** Restriction keeps every cell well formed. */
  lemma RestrictCellOk(t: Tower, k: int, clue: int, size: int)
    requires 0 <= k < size && Ok(t, size) && RestrictCell(t, k, clue, size).Some?
    ensures Ok(RestrictCell(t, k, clue, size).value, size)
  {
    if clue == 1 && k == 0 {
      ResolvedOk(size, size);
    } else if clue == 1 {
      NarrowOk(t, LowMask(size - 1), size);
    } else if clue == size {
      ResolvedOk(k + 1, size);
    } else {
      NarrowOk(t, ClueMask(clue, k, size), size);
    }
  }

  /**
   * Clue 1: the first cell is resolved to size, and every other cell loses
   * height size unless that is all it has.
   */
  lemma ClueOneMeaning(t: Tower, k: int, size: int)
    requires 0 <= k < size && Ok(t, size) && (k == 0 ==> t.height == 0 || t.height == size)
    ensures k == 0 ==> RestrictCell(t, k, 1, size) == Some(Resolved(size))
    ensures 0 < k && HasFloors(t, LowMask(size - 1)) ==>
      forall h :: Has(RestrictCell(t, k, 1, size).value.options, h) <==> Has(t.options, h) && h != size
    ensures 0 < k && !HasFloors(t, LowMask(size - 1)) ==> RestrictCell(t, k, 1, size) == Some(t)
  {
    if 0 < k && HasFloors(t, LowMask(size - 1)) {
      NarrowOk(t, LowMask(size - 1), size);
      LowMaskAndAll(t.options, size - 1);
    }
  }

  /** Clue size: the k-th cell is resolved to k + 1. */
  lemma ClueSizeMeaning(t: Tower, k: int, size: int)
    requires 0 <= k < size <= 8 && 1 < size && (t.height == 0 || t.height == k + 1)
    ensures RestrictCell(t, k, size, size) == Some(Resolved(k + 1))
  {}

  /**
   * An intermediate clue 1 < clue < size: a cell k with k + 1 < clue keeps its
   * candidates up to size - clue + 1 + k, unless none would survive; the other
   * cells keep their candidates.
   */
  lemma ClueCapMeaning(t: Tower, k: int, clue: int, size: int)
    requires 0 <= k < size && 1 < clue < size && Ok(t, size)
    ensures k + 1 < clue && HasFloors(t, ClueMask(clue, k, size)) ==>
      forall h :: Has(RestrictCell(t, k, clue, size).value.options, h) <==> Has(t.options, h) && h <= size - clue + 1 + k
    ensures k + 1 < clue && !HasFloors(t, ClueMask(clue, k, size)) ==> RestrictCell(t, k, clue, size) == Some(t)
    ensures clue <= k + 1 ==> RestrictCell(t, k, clue, size).value.options == t.options
  {
    if k + 1 < clue {
      ClueCapLow(t, k, clue, size);
    } else {
      ClueCapHigh(t, k, clue, size);
    }
  }

  lemma ClueCapLow(t: Tower, k: int, clue: int, size: int)
    requires 0 <= k && k + 1 < clue < size && Ok(t, size)
    ensures HasFloors(t, ClueMask(clue, k, size)) ==>
      forall h :: Has(RestrictCell(t, k, clue, size).value.options, h) <==> Has(t.options, h) && h <= size - clue + 1 + k
    ensures !HasFloors(t, ClueMask(clue, k, size)) ==> RestrictCell(t, k, clue, size) == Some(t)
  {
    assert ClueMask(clue, k, size) == LowMask(size - clue + 1 + k);
    NarrowLow(t, size - clue + 1 + k, size);
  }

  lemma ClueCapHigh(t: Tower, k: int, clue: int, size: int)
    requires 0 <= k < size && 1 < clue <= k + 1 && clue < size && Ok(t, size)
    ensures RestrictCell(t, k, clue, size).value.options == t.options
  {
    assert ClueMask(clue, k, size) == LowMask(size);
    NarrowLow(t, size, size);
    CappedFull(t, size);
  }

  /** Narrowing to the heights up to c. */
  lemma NarrowLow(t: Tower, c: int, size: int)
    requires 0 <= c <= size && Ok(t, size)
    ensures HasFloors(t, LowMask(c)) ==>
      forall h :: Has(Narrow(t, LowMask(c), size).options, h) <==> Has(t.options, h) && h <= c
    ensures !HasFloors(t, LowMask(c)) ==> Narrow(t, LowMask(c), size) == t
    ensures Narrow(t, LowMask(c), size).options == (if HasFloors(t, LowMask(c)) then t.options & LowMask(c) else t.options)
  {
    NarrowOk(t, LowMask(c), size);
    if HasFloors(t, LowMask(c)) {
      LowMaskAndAll(t.options, c);
    }
  }

  /** A clue below 1 leaves every cell's candidates as they were. */
  lemma ClueNegativeMeaning(t: Tower, k: int, clue: int, size: int)
    requires 0 <= k < size && clue < 1 && Ok(t, size)
    ensures RestrictCell(t, k, clue, size).value.options == t.options
  {
    NarrowOk(t, ClueMask(clue, k, size), size);
    assert ShiftCount(clue, k, size) == 0;
    CappedFull(t, size);
  }

  /** The full mask leaves a well-formed cell's candidates alone. */
  lemma CappedFull(t: Tower, size: int)
    requires Ok(t, size)
    ensures t.options & LowMask(size) == t.options
  {}

  // ---------------------------------------------------------------------------
  // Where the tallest building may stand (find_highest_first, find_highest_last).

  /** The cell may still hold the tallest height: it meets tower_get_mask(size, size). */
  predicate MayBeTallest(t: Tower, size: int)
    requires 1 <= size <= 8
  {
    HasFloors(t, Bit(size))
  }

  /** r is the first index that may hold the tallest height, or the last index when none may. */
  predicate IsHighestFirst(cells: seq<Tower>, size: int, r: int)
    requires 1 <= size <= 8
  {
    0 <= r < |cells| &&
    (forall j :: 0 <= j < r ==> !MayBeTallest(cells[j], size)) &&
    (MayBeTallest(cells[r], size) || r == |cells| - 1)
  }

  /** The scan of find_highest_last reaches index i: no earlier cell is resolved to size. */
  predicate Reaches(cells: seq<Tower>, size: int, i: int)
    requires 0 <= i <= |cells|
  {
    forall j :: 0 <= j < i ==> cells[j].height != size
  }

  /** No reached index after r may hold the tallest height. */
  predicate NoneAfter(cells: seq<Tower>, size: int, r: int)
    requires 1 <= size <= 8
  {
    forall j :: 0 <= j < |cells| && r < j && Reaches(cells, size, j) ==> !MayBeTallest(cells[j], size)
  }

  /**
   * r is the last index the scan reaches that may hold the tallest height, or
   * the last index when no reached cell may.
   */
  predicate IsHighestLast(cells: seq<Tower>, size: int, r: int)
    requires 1 <= size <= 8
  {
    0 <= r < |cells| &&
    ((Reaches(cells, size, r) && MayBeTallest(cells[r], size) && NoneAfter(cells, size, r)) ||
     (r == |cells| - 1 && NoneAfter(cells, size, -1)))
  }

  /** find_highest_first. */
  method HighestFirst(a: array<Tower>, line: seq<int>, size: int) returns (r: int)
    requires 1 <= size <= 8 && |line| == size && Distinct(line, a.Length)
    ensures IsHighestFirst(Gather(a[..], line), size, r)
  {
    ghost var cells := Gather(a[..], line);
    var mask := GetMask(size, size);
    BitIsRange(size);
    r := size - 1;
    var i := 0;
    while i < size
      invariant 0 <= i <= size
      invariant forall j :: 0 <= j < i ==> !MayBeTallest(cells[j], size)
    {
      if HasFloors(a[line[i]], mask) {
        r := i;
        break;
      }
      i := i + 1;
    }
  }

  /** find_highest_last: the scan stops at the first cell resolved to size. */
  method HighestLast(a: array<Tower>, line: seq<int>, size: int) returns (r: int)
    requires 1 <= size <= 8 && |line| == size && Distinct(line, a.Length)
    ensures IsHighestLast(Gather(a[..], line), size, r)
  {
    ghost var cells := Gather(a[..], line);
    var mask := GetMask(size, size);
    BitIsRange(size);
    r := size - 1;
    ghost var found := false;
    var i := 0;
    while i < size
      invariant 0 <= i <= size && Reaches(cells, size, i)
      invariant found ==> 0 <= r < i && Reaches(cells, size, r) && MayBeTallest(cells[r], size)
      invariant found ==> forall j :: r < j < i ==> !MayBeTallest(cells[j], size)
      invariant !found ==> r == size - 1 && forall j :: 0 <= j < i ==> !MayBeTallest(cells[j], size)
    {
      var t := a[line[i]];
      if HasFloors(t, mask) {
        r := i;
        found := true;
      }
      if t.height == size {
        PastTallest(cells, size, i);
        return;
      }
      i := i + 1;
    }
  }

  /** The scan reaches nothing beyond a cell resolved to size. */
  lemma PastTallest(cells: seq<Tower>, size: int, i: int)
    requires 0 <= i < |cells| && cells[i].height == size
    ensures forall j :: i < j <= |cells| ==> !Reaches(cells, size, j)
  {
    forall j | i < j <= |cells| ensures !Reaches(cells, size, j) {
      assert cells[i].height == size;
    }
  }

  /** The first index that may hold the tallest height comes no later than the last one. */
  lemma HighestOrder(cells: seq<Tower>, size: int, first: int, last: int)
    requires 1 <= size <= 8 && IsHighestFirst(cells, size, first) && IsHighestLast(cells, size, last)
    ensures first <= last
  {}

  /** IsHighestFirst names one index. */
  lemma HighestFirstUnique(cells: seq<Tower>, size: int, r1: int, r2: int)
    requires 1 <= size <= 8 && IsHighestFirst(cells, size, r1) && IsHighestFirst(cells, size, r2)
    ensures r1 == r2
  {}

  /** IsHighestLast names one index. */
  lemma HighestLastUnique(cells: seq<Tower>, size: int, r1: int, r2: int)
    requires 1 <= size <= 8 && IsHighestLast(cells, size, r1) && IsHighestLast(cells, size, r2)
    ensures r1 == r2
  {}

  /** The first index from i on that may hold the tallest height, or the last index when none may. */
  function FirstTall(cells: seq<Tower>, size: int, i: int): (r: int)
    requires 1 <= size <= 8 && 0 <= i < |cells|
    ensures i <= r < |cells| && (MayBeTallest(cells[r], size) || r == |cells| - 1)
    ensures forall j :: i <= j < r ==> !MayBeTallest(cells[j], size)
    decreases |cells| - i
  {
    if MayBeTallest(cells[i], size) || i == |cells| - 1 then i else FirstTall(cells, size, i + 1)
  }

  /**
   * The last index below n that the scan of find_highest_last reaches and
   * that may hold the tallest height; -1 when there is none.
   */
  function LastTall(cells: seq<Tower>, size: int, n: int): (r: int)
    requires 1 <= size <= 8 && 0 <= n <= |cells|
    ensures -1 <= r < n
    ensures 0 <= r ==> Reaches(cells, size, r) && MayBeTallest(cells[r], size)
    ensures forall j :: r < j < n && Reaches(cells, size, j) ==> !MayBeTallest(cells[j], size)
  {
    if n == 0 then -1
    else if Reaches(cells, size, n - 1) && MayBeTallest(cells[n - 1], size) then n - 1
    else LastTall(cells, size, n - 1)
  }

  /** The index find_highest_first returns, as a function of the cells. */
  function HighestFirstOf(cells: seq<Tower>, size: int): (r: int)
    requires 1 <= size <= 8 && 0 < |cells|
    ensures IsHighestFirst(cells, size, r)
  {
    FirstTall(cells, size, 0)
  }

  /** The index find_highest_last returns, as a function of the cells. */
  function HighestLastOf(cells: seq<Tower>, size: int): (r: int)
    requires 1 <= size <= 8 && 0 < |cells|
    ensures IsHighestLast(cells, size, r)
  {
    var r := LastTall(cells, size, |cells|);
    if 0 <= r then r else |cells| - 1
  }

  /**
   * In a line of well-formed cells, a reached cell resolved to size is where
   * find_highest_last stops: it is the result.
   */
  lemma HighestLastAtTallest(cells: seq<Tower>, size: int, p: int, r: int)
    requires 1 <= size <= 8 && 0 <= p < |cells| && Ok(cells[p], size) && cells[p].height == size
    requires Reaches(cells, size, p) && IsHighestLast(cells, size, r)
    ensures r == p
  {
    OkResolved(cells[p], size);
    BitHas(size, size);
    assert MayBeTallest(cells[p], size);
    PastTallest(cells, size, p);
  }

  // ---------------------------------------------------------------------------
  // The validity check (check_valid).

  /**
   * check_valid: the accumulator of Module Views over the line, returning as
   * soon as it turns invalid, then the two bounds against a nonzero clue.
   */
  method CheckValid(a: array<Tower>, line: seq<int>, clue: int, size: int) returns (ok: bool)
    requires |line| == size && Distinct(line, a.Length)
    ensures ok == LineOk(Gather(a[..], line), clue, size)
  {
    ghost var cells := Gather(a[..], line);
    var info := Reset;
    var i := 0;
    while i < size
      invariant 0 <= i <= size && info == Collect(cells, i, size) && info.valid
    {
      info := Add(info, a[line[i]], size);
      i := i + 1;
      if !info.valid {
        InvalidStays(cells, i, size, size);
        return false;
      }
    }
    if clue == 0 {
      return true;
    }
    if info.visible > clue + info.foreground + info.offstage {
      return false;
    }
    if info.visible + info.foreground + info.offstage < clue {
      return false;
    }
    return true;
  }

  /** Once the accumulator is invalid, it stays invalid. */
  lemma {:induction false} InvalidStays(cells: seq<Tower>, i: int, n: int, size: int)
    requires 0 <= i <= n <= |cells| && !Collect(cells, i, size).valid
    ensures !Collect(cells, n, size).valid
  {
    if i < n {
      InvalidStays(cells, i, n - 1, size);
    }
  }

  // ---------------------------------------------------------------------------
  // The hill scan (update_hill), in place on a cleared hill buffer.

  /**
   * The hill buffer holds the scan's finished hills, then at index cnt (the
   * source's hill_cnt) the hill being built, then cleared records.
   */
  predicate Mirrors(buf: array<Hill>, cnt: int, s: Scan)
    reads buf
  {
    0 <= cnt < buf.Length && cnt == |s.closed| &&
    (forall k :: 0 <= k < cnt ==> buf[k] == s.closed[k]) && buf[cnt] == s.cur &&
    (forall k :: cnt < k < buf.Length ==> buf[k] == Blank)
  }

  /** The scan's running variables, the source's locals of update_hill, agree with the scan s. */
  predicate Tracks(buf: array<Hill>, cnt: int, hillSize: int, bottomLimit: int, bit: Bits,
                   visible: int, vacant: int, s: Scan)
    reads buf
  {
    Mirrors(buf, cnt, s) && hillSize == s.hillSize && bottomLimit == s.bottomLimit && bit == s.bit &&
    visible == s.visible && vacant == s.vacant
  }

  /**
   * update_hill on the cells up to index last (the street's highest_last): the
   * scan stops at a cell resolved to size, and its result is the scan of
   * Module Hills.
   */
  method HillScan(a: array<Tower>, line: seq<int>, last: int, size: int)
      returns (hills: seq<Hill>, visible: int, vacant: int)
    requires 1 <= size <= 8 && |line| == size && Distinct(line, a.Length) && 0 <= last < size
    ensures hills == Close(ScanUpTo(Gather(a[..], line), last + 1, size))
    ensures visible == ScanUpTo(Gather(a[..], line), last + 1, size).visible
    ensures vacant == ScanUpTo(Gather(a[..], line), last + 1, size).vacant
  {
    ghost var cells := Gather(a[..], line);
    var buf := new Hill[size](_ => Blank);
    var cnt := 0;
    var hillSize := 0;
    var bottomLimit := 0;
    var bit: Bits := 1;
    visible := 0;
    vacant := 0;
    var i := 0;
    while i <= last
      invariant 0 <= i <= last + 1 && !ScanUpTo(cells, i, size).stopped
      invariant 0 <= hillSize && 2 * cnt + hillSize <= i
      invariant Tracks(buf, cnt, hillSize, bottomLimit, bit, visible, vacant, ScanUpTo(cells, i, size))
    {
      var t := a[line[i]];
      assert t == cells[i];
      if t.height == size {
        visible := ScanTallest(buf, cnt, hillSize, bottomLimit, bit, visible, vacant, t, i, last, size, cells);
        break;
      }
      cnt, hillSize, bottomLimit, bit, visible, vacant := ScanCell(buf, cnt, hillSize, bottomLimit, bit, visible, vacant, t, i, size, cells);
      i := i + 1;
    }
    hills := CloseLast(buf, cnt, hillSize, ScanUpTo(cells, last + 1, size));
  }

  /** update_hill's last pass, over a cell t resolved to size: it is counted visible and the scan ends. */
  method ScanTallest(buf: array<Hill>, cnt: int, hillSize: int, bottomLimit: int, bit: Bits,
                     visible: int, vacant: int, t: Tower, i: int, last: int, size: int, ghost cells: seq<Tower>)
      returns (visible2: int)
    requires 1 <= size <= 8 && 0 <= i <= last < |cells| && t == cells[i] && t.height == size
    requires !ScanUpTo(cells, i, size).stopped
    requires Tracks(buf, cnt, hillSize, bottomLimit, bit, visible, vacant, ScanUpTo(cells, i, size))
    ensures Tracks(buf, cnt, hillSize, bottomLimit, bit, visible2, vacant, ScanUpTo(cells, last + 1, size))
  {
    visible2 := visible + 1;
    TallestStops(cells, i, last + 1, size);
  }

  /** A cell resolved to size ends the scan: it is visible and nothing after it counts. */
  lemma TallestStops(cells: seq<Tower>, i: int, n: int, size: int)
    requires 0 <= size <= 8 && 0 <= i < n <= |cells| && cells[i].height == size
    requires !ScanUpTo(cells, i, size).stopped
    ensures ScanUpTo(cells, n, size) == ScanUpTo(cells, i, size).(visible := ScanUpTo(cells, i, size).visible + 1, stopped := true)
  {
    ScanNext(cells, i, size);
    StepTallest(ScanUpTo(cells, i, size), cells[i], i, size);
    StoppedStays(cells, i + 1, n, size);
  }

  /** One pass of update_hill's loop over a cell t, cell i of the line, not resolved to size. */
  method ScanCell(buf: array<Hill>, cnt: int, hillSize: int, bottomLimit: int, bit: Bits,
                  visible: int, vacant: int, t: Tower, i: int, size: int, ghost cells: seq<Tower>)
      returns (cnt2: int, hillSize2: int, bottomLimit2: int, bit2: Bits, visible2: int, vacant2: int)
    requires 1 <= size <= 8 && 0 <= i < |cells| && t == cells[i] && t.height != size
    requires !ScanUpTo(cells, i, size).stopped
    requires Tracks(buf, cnt, hillSize, bottomLimit, bit, visible, vacant, ScanUpTo(cells, i, size))
    requires 0 <= hillSize && 2 * cnt + hillSize <= i < buf.Length
    modifies buf
    ensures !ScanUpTo(cells, i + 1, size).stopped
    ensures Tracks(buf, cnt2, hillSize2, bottomLimit2, bit2, visible2, vacant2, ScanUpTo(cells, i + 1, size))
    ensures 0 <= hillSize2 && 2 * cnt2 + hillSize2 <= i + 1
  {
    ScanNext(cells, i, size);
    cnt2, hillSize2, bottomLimit2, bit2, visible2, vacant2 :=
      HillStep(buf, cnt, hillSize, bottomLimit, bit, visible, vacant, t, i, size, ScanUpTo(cells, i, size));
  }

  /**
   * The body of update_hill's loop for a cell t at index i not resolved to
   * size: a taller resolved cell closes the hill and raises the record, a cell
   * that joins the hill is counted, and any other cell is passed over.
   */
  method HillStep(buf: array<Hill>, cnt: int, hillSize: int, bottomLimit: int, bit: Bits,
                  visible: int, vacant: int, t: Tower, i: int, size: int, ghost s: Scan)
      returns (cnt2: int, hillSize2: int, bottomLimit2: int, bit2: Bits, visible2: int, vacant2: int)
    requires 1 <= size <= 8 && !s.stopped && t.height != size
    requires Tracks(buf, cnt, hillSize, bottomLimit, bit, visible, vacant, s)
    requires 0 <= hillSize && 2 * cnt + hillSize <= i < buf.Length
    modifies buf
    ensures Tracks(buf, cnt2, hillSize2, bottomLimit2, bit2, visible2, vacant2, Step(s, t, i, size))
    ensures !Step(s, t, i, size).stopped
    ensures 0 <= hillSize2 && 2 * cnt2 + hillSize2 <= i + 1
  {
    if t.height > buf[cnt].top {
      cnt2, hillSize2, bottomLimit2, bit2, visible2 := CloseAndRaise(buf, cnt, hillSize, bottomLimit, bit, visible, vacant, t.height, s);
      vacant2 := vacant;
      StepTaller(s, t, i, size);
    } else if t.height == 0 || hillSize != 0 {
      hillSize2, bottomLimit2, bit2, vacant2 := JoinAndCount(buf, cnt, hillSize, bottomLimit, bit, visible, vacant, t, i, size, s);
      cnt2, visible2 := cnt, visible;
      StepCounted(s, t, i, size);
    } else {
      cnt2, hillSize2, bottomLimit2, bit2, visible2, vacant2 := cnt, hillSize, bottomLimit, bit, visible, vacant;
      StepSkip(s, t, i, size);
    }
  }

  /**
   * A resolved cell taller than the hill: the open hill, if any, is closed with
   * its last index, and the next record starts with that height as its top; the
   * cell is visible and the bottom limit becomes its height.
   */
  method CloseAndRaise(buf: array<Hill>, cnt: int, hillSize: int, bottomLimit: int, bit: Bits,
                       visible: int, vacant: int, height: int, ghost s: Scan)
      returns (cnt2: int, hillSize2: int, bottomLimit2: int, bit2: Bits, visible2: int)
    requires Tracks(buf, cnt, hillSize, bottomLimit, bit, visible, vacant, s) && 0 <= hillSize
    requires hillSize != 0 ==> cnt + 1 < buf.Length
    modifies buf
    ensures Tracks(buf, cnt2, hillSize2, bottomLimit2, bit2, visible2, vacant, Taller(s, height))
    ensures cnt2 == (if hillSize != 0 then cnt + 1 else cnt) && hillSize2 == 0
  {
    cnt2 := cnt;
    if hillSize != 0 {
      buf[cnt] := buf[cnt].(last := buf[cnt].first + hillSize - 1);
      cnt2 := cnt + 1;
    }
    hillSize2 := 0;
    visible2 := visible + 1;
    bottomLimit2 := height;
    buf[cnt2] := buf[cnt2].(top := height);
    bit2 := 1;
  }

  /**
   * A cell that joins the hill, opening it at index i if it is empty: with its
   * lowest and tallest candidates it may be counted vacant (see CountRise), and
   * the action bit moves on to the next cell.
   */
  method JoinAndCount(buf: array<Hill>, cnt: int, hillSize: int, bottomLimit: int, bit: Bits,
                      visible: int, vacant: int, t: Tower, i: int, size: int, ghost s: Scan)
      returns (hillSize2: int, bottomLimit2: int, bit2: Bits, vacant2: int)
    requires 1 <= size <= 8 && Tracks(buf, cnt, hillSize, bottomLimit, bit, visible, vacant, s)
    modifies buf
    ensures Tracks(buf, cnt, hillSize2, bottomLimit2, bit2, visible, vacant2,
                   Counted(s, MinHeight(t.options, size), MaxHeight(t.options, size), i))
    ensures hillSize2 == hillSize + 1
  {
    var limit := bottomLimit;
    if hillSize == 0 {
      buf[cnt] := buf[cnt].(first := i, shadow := limit);
      limit := 0;
    }
    assert buf[cnt] == Joined(s, i);
    hillSize2 := hillSize + 1;
    var bottom := GetMinHeight(t, size);
    var top := GetMaxHeight(t, size);
    var rises;
    bottomLimit2, rises := CountRise(buf, cnt, limit, bit, i, bottom, top, s);
    vacant2 := if rises then vacant + 1 else vacant;
    bit2 := bit << 1;
  }

  /** After the scan, the open hill, if any, is closed and the buffer's hills are read out. */
  method CloseLast(buf: array<Hill>, cnt: int, hillSize: int, ghost s: Scan) returns (hills: seq<Hill>)
    requires Mirrors(buf, cnt, s) && hillSize == s.hillSize
    modifies buf
    ensures hills == Close(s)
  {
    var n := cnt;
    if hillSize != 0 {
      buf[cnt] := buf[cnt].(last := buf[cnt].first + hillSize - 1);
      n := cnt + 1;
    }
    hills := buf[..n];
    assert forall k :: 0 <= k < n ==> hills[k] == Close(s)[k];
  }

  /**
   * The joined cell is counted vacant, and its action bit set, when it may rise
   * above the hill's shadow and the bottom limit.
   */
  method CountRise(buf: array<Hill>, cnt: int, bottomLimit: int, bit: Bits,
                   i: int, bottom: int, top: int, ghost s: Scan) returns (limit: int, rises: bool)
    requires Mirrors(buf, cnt, s.(cur := Joined(s, i))) && bottomLimit == Limit(s) && bit == s.bit
    modifies buf
    ensures Mirrors(buf, cnt, Counted(s, bottom, top, i))
    ensures limit == Counted(s, bottom, top, i).bottomLimit && rises == Rises(s, top, i)
  {
    var h := buf[cnt];
    limit := bottomLimit;
    rises := top > h.shadow && top > limit;
    if rises {
      CountedRises(s, bottom, top, i, h);
      limit := limit + 1;
      limit := Max(limit, bottom);
      buf[cnt] := Raised(h, bottom, top, bit);
    } else {
      CountedFlat(s, bottom, top, i, h);
    }
  }

  // ---------------------------------------------------------------------------
  // Refreshing a street (street_update) and seeding it (street_fast_constraint).

  /** The street's cells are size distinct indices into a cell array of length n. */
  predicate Placed(st: Street, size: int, n: int)
  {
    |st.cells| == size && Distinct(st.cells, n)
  }

  /**
   * The statistics of st are those of its cells: where the tallest building may
   * stand, and the hill scan up to the last such place.
   */
  predicate Current(st: Street, cells: seq<Tower>, size: int)
    requires 1 <= size <= 8 && |cells| == size
  {
    IsHighestFirst(cells, size, st.highestFirst) && IsHighestLast(cells, size, st.highestLast) &&
    st.hills == Close(ScanUpTo(cells, st.highestLast + 1, size)) &&
    st.visible == ScanUpTo(cells, st.highestLast + 1, size).visible &&
    st.vacant == ScanUpTo(cells, st.highestLast + 1, size).vacant
  }

  /**
   * street_update: the tallest positions are always recomputed; a line that
   * fails check_valid marks the street invalid and keeps its old hills, counts
   * and hill buffer (update_hill is not reached); otherwise the hill scan
   * refreshes them.  The street is never made valid again.
   */
  method Update(a: array<Tower>, st: Street, size: int) returns (r: Street)
    requires 1 <= size <= 8 && Placed(st, size, a.Length)
    ensures r.side == st.side && r.pos == st.pos && r.clue == st.clue && r.cells == st.cells
    ensures IsHighestFirst(Gather(a[..], st.cells), size, r.highestFirst)
    ensures IsHighestLast(Gather(a[..], st.cells), size, r.highestLast)
    ensures r.valid == (st.valid && LineOk(Gather(a[..], st.cells), st.clue, size))
    ensures LineOk(Gather(a[..], st.cells), st.clue, size) ==> Current(r, Gather(a[..], st.cells), size)
    ensures !LineOk(Gather(a[..], st.cells), st.clue, size) ==>
              r.hills == st.hills && r.visible == st.visible && r.vacant == st.vacant
  {
    var first := HighestFirst(a, st.cells, size);
    var last := HighestLast(a, st.cells, size);
    r := st.(highestFirst := first, highestLast := last);
    var ok := CheckValid(a, st.cells, st.clue, size);
    if !ok {
      r := r.(valid := false);
    } else {
      var hills, visible, vacant := HillScan(a, st.cells, last, size);
      r := r.(hills := hills, visible := visible, vacant := vacant);
    }
  }

  /**
   * What current statistics of well-formed cells guarantee: the hills lie in
   * order up to highest_last, their vacancies add up to the street's vacant
   * count, and the visible count is not negative.
   */
  lemma CurrentStats(st: Street, cells: seq<Tower>, size: int)
    requires 1 <= size <= 8 && |cells| == size && Current(st, cells, size)
    requires forall i :: 0 <= i < size ==> Ok(cells[i], size)
    ensures HillsOk(st.hills, st.highestLast + 1, size)
    ensures SumVacant(st.hills) == st.vacant && 0 <= st.visible
    ensures 0 <= st.highestFirst <= st.highestLast < size
  {
    ScanHillsOk(cells, st.highestLast + 1, size);
    HighestOrder(cells, size, st.highestFirst, st.highestLast);
  }

  /**
   * street_fast_constraint: a positive clue restricts the line as Restrict
   * states; any other clue changes nothing.
   */
  method FastConstraint(a: array<Tower>, st: Street, size: int, mask: Bits) returns (ok: bool)
    requires 1 <= size <= 8 && Placed(st, size, a.Length) && mask == LowMask(size)
    modifies a
    ensures st.clue > 0 ==> (ok <==> Restrictable(Gather(old(a[..]), st.cells), st.clue, size))
    ensures st.clue > 0 && ok ==> forall k :: 0 <= k < size ==>
              Some(a[st.cells[k]]) == RestrictCell(old(a[st.cells[k]]), k, st.clue, size)
    ensures st.clue <= 0 ==> ok && a[..] == old(a[..])
    ensures forall j :: 0 <= j < a.Length && j !in st.cells ==> a[j] == old(a[j])
  {
    ok := true;
    if st.clue > 0 {
      ok := Restrict(a, st.cells, st.clue, size, mask);
    }
  }
}
