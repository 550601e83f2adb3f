/**
 * The grid's geometry (city_get_tower in src/core/city.c): a line is named by
 * the side it is seen from and its position along that side, and its index-th
 * cell, counted from that side, is found by rotating the view.  Cells live in
 * one array indexed x + y * size.
 */
module Geometry {
  const TOP := 0
  const RIGHT := 1
  const BOTTOM := 2
  const LEFT := 3

  /** Column of the index-th cell of line (side, pos). */
  function ViewX(size: int, side: int, pos: int, index: int): int
    requires 0 <= side < 4
  {
    if side == TOP then pos
    else if side == RIGHT then size - 1 - index
    else if side == BOTTOM then size - 1 - pos
    else index
  }

  /** Row of the index-th cell of line (side, pos). */
  function ViewY(size: int, side: int, pos: int, index: int): int
    requires 0 <= side < 4
  {
    if side == TOP then index
    else if side == RIGHT then pos
    else if side == BOTTOM then size - 1 - index
    else size - 1 - pos
  }

  /** Array index of the index-th cell of line (side, pos). */
  function CellOf(size: int, side: int, pos: int, index: int): (k: int)
    requires 1 <= size && 0 <= side < 4 && 0 <= pos < size && 0 <= index < size
    ensures 0 <= k < size * size
    ensures 0 <= ViewX(size, side, pos, index) < size && 0 <= ViewY(size, side, pos, index) < size
  {
    var x := ViewX(size, side, pos, index);
    var y := ViewY(size, side, pos, index);
    CellBound(size, x, y);
    x + y * size
  }

  lemma CellBound(size: int, x: int, y: int)
    requires 0 <= x < size && 0 <= y < size
    ensures 0 <= x + y * size < size * size
  {
    assert y * size <= (size - 1) * size;
  }

  /** Every cell k of the grid is cell (k % size, k / size), as the top lines see it. */
  lemma CellSplit(size: int, k: int)
    requires 1 <= size && 0 <= k < size * size
    ensures 0 <= k % size < size && 0 <= k / size < size
    ensures CellOf(size, TOP, k % size, k / size) == k
  {
  }

  /** Every street number is the number of line (i / size, i % size). */
  lemma StreetSplit(size: int, i: int)
    requires 1 <= size && 0 <= i < 4 * size
    ensures 0 <= i / size < 4 && 0 <= i % size < size
    ensures StreetNumber(size, i / size, i % size) == i
  {
  }

  /** A cell index determines its column and row (also: a line number its side and position). */
  lemma CellCoordinates(size: int, x1: int, y1: int, x2: int, y2: int)
    requires 0 <= x1 < size && 0 <= y1 && 0 <= x2 < size && 0 <= y2
    requires x1 + y1 * size == x2 + y2 * size
    ensures x1 == x2 && y1 == y2
  {
    assert (y2 - y1) * size == x1 - x2;
    SmallMultiple(y2 - y1, size);
  }

  /** The only multiple of size strictly between -size and size is 0. */
  lemma SmallMultiple(d: int, size: int)
    requires 1 <= size && -size < d * size < size
    ensures d == 0
  {
    if d > 0 {
      MulAtLeast(d, size);
    } else if d < 0 {
      MulAtLeast(-d, size);
    }
  }

  lemma {:induction false} MulAtLeast(d: int, size: int)
    requires 1 <= d && 1 <= size
    ensures d * size >= size
  {
    if d > 1 {
      MulAtLeast(d - 1, size);
      assert d * size == (d - 1) * size + size;
    }
  }

  /** Each line visits size different cells. */
  lemma CellOfInjective(size: int, side: int, pos: int, i: int, j: int)
    requires 1 <= size && 0 <= side < 4 && 0 <= pos < size && 0 <= i < size && 0 <= j < size
    requires CellOf(size, side, pos, i) == CellOf(size, side, pos, j)
    ensures i == j
  {
    CellCoordinates(size, ViewX(size, side, pos, i), ViewY(size, side, pos, i),
      ViewX(size, side, pos, j), ViewY(size, side, pos, j));
  }

  /** The cells of line (side, pos), from the near end to the far end. */
  function Line(size: int, side: int, pos: int): (line: seq<int>)
    requires 1 <= size && 0 <= side < 4 && 0 <= pos < size
    ensures |line| == size
    ensures forall i :: 0 <= i < size ==> line[i] == CellOf(size, side, pos, i)
  {
    seq(size, i requires 0 <= i < size => CellOf(size, side, pos, i))
  }

  /** The cells of a line lie in the grid and are pairwise different. */
  predicate Distinct(line: seq<int>, cells: int)
  {
    (forall i :: 0 <= i < |line| ==> 0 <= line[i] < cells) &&
    (forall i, j :: 0 <= i < j < |line| ==> line[i] != line[j])
  }

  lemma LineDistinct(size: int, side: int, pos: int)
    requires 1 <= size && 0 <= side < 4 && 0 <= pos < size
    ensures Distinct(Line(size, side, pos), size * size)
  {
    var line := Line(size, side, pos);
    forall i, j | 0 <= i < j < size ensures line[i] != line[j] {
      if line[i] == line[j] {
        CellOfInjective(size, side, pos, i, j);
      }
    }
  }

  /** Number of the line (side, pos) among the 4 * size lines. */
  function StreetNumber(size: int, side: int, pos: int): (n: int)
    requires 1 <= size && 0 <= side < 4 && 0 <= pos < size
    ensures 0 <= n < 4 * size
  {
    assert side * size <= 3 * size;
    side * size + pos
  }

  /** Different lines have different numbers. */
  lemma StreetNumberInjective(size: int, side1: int, pos1: int, side2: int, pos2: int)
    requires 1 <= size && 0 <= side1 < 4 && 0 <= pos1 < size && 0 <= side2 < 4 && 0 <= pos2 < size
    requires StreetNumber(size, side1, pos1) == StreetNumber(size, side2, pos2)
    ensures side1 == side2 && pos1 == pos2
  {
    CellCoordinates(size, pos1, side1, pos2, side2);
  }

  /** The index at which line (side, pos) meets cell (x, y): its distance from that side. */
  function IndexOn(size: int, side: int, x: int, y: int): int
    requires 0 <= side < 4
  {
    if side == TOP then y
    else if side == RIGHT then size - 1 - x
    else if side == BOTTOM then size - 1 - y
    else x
  }

  /** The position of the line from side that crosses cell (x, y). */
  function PosOn(size: int, side: int, x: int, y: int): int
    requires 0 <= side < 4
  {
    if side == TOP then x
    else if side == RIGHT then y
    else if side == BOTTOM then size - 1 - x
    else size - 1 - y
  }

  /**
   * Line (side, pos) passes through cell (x, y) exactly when pos is PosOn, and
   * then at IndexOn.
   */
  lemma OnLine(size: int, side: int, pos: int, x: int, y: int)
    requires 1 <= size && 0 <= side < 4 && 0 <= pos < size && 0 <= x < size && 0 <= y < size
    ensures (exists i :: 0 <= i < size && CellOf(size, side, pos, i) == x + y * size) <==>
            pos == PosOn(size, side, x, y)
    ensures pos == PosOn(size, side, x, y) ==>
            0 <= IndexOn(size, side, x, y) < size &&
            CellOf(size, side, pos, IndexOn(size, side, x, y)) == x + y * size
  {
    if exists i :: 0 <= i < size && CellOf(size, side, pos, i) == x + y * size {
      var i :| 0 <= i < size && CellOf(size, side, pos, i) == x + y * size;
      CellCoordinates(size, ViewX(size, side, pos, i), ViewY(size, side, pos, i), x, y);
    }
    if pos == PosOn(size, side, x, y) {
      assert CellOf(size, side, pos, IndexOn(size, side, x, y)) == x + y * size;
    }
  }

  /**
   * The numbers of the four lines through cell (x, y), as
   * city_notify_of_tower_change computes them.
   */
  function StreetsThrough(size: int, x: int, y: int): (s: set<int>)
  {
    {x, size + y, 3 * size - x - 1, 4 * size - y - 1}
  }

  /** Line (side, pos) passes through cell (x, y) exactly when its number is one of StreetsThrough. */
  lemma StreetsThroughMeaning(size: int, side: int, pos: int, x: int, y: int)
    requires 1 <= size && 0 <= side < 4 && 0 <= pos < size && 0 <= x < size && 0 <= y < size
    ensures (exists i :: 0 <= i < size && CellOf(size, side, pos, i) == x + y * size) <==>
            StreetNumber(size, side, pos) in StreetsThrough(size, x, y)
  {
    OnLine(size, side, pos, x, y);
    var n := StreetNumber(size, side, pos);
    if n == x {
      StreetNumberInjective(size, side, pos, TOP, x);
    }
    if n == size + y {
      StreetNumberInjective(size, side, pos, RIGHT, y);
    }
    if n == 3 * size - x - 1 {
      StreetNumberInjective(size, side, pos, BOTTOM, size - 1 - x);
    }
    if n == 4 * size - y - 1 {
      StreetNumberInjective(size, side, pos, LEFT, size - 1 - y);
    }
  }
}
