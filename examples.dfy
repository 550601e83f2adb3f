/**
 * The first 4x4 puzzle of the solver's tests: its clues, its expected rows,
 * and the fact that a grid holding those rows passes city_is_solved's checks
 * against those clues.
 */
module Examples {
  import opened Bitmask
  import opened Towers
  import opened Geometry
  import opened Streets
  import opened Views
  import opened Grid

  /** The clues, street side * 4 + pos: TOP, RIGHT, BOTTOM, LEFT. */
  const Clues: seq<int> := [2, 2, 1, 3, 2, 2, 3, 1, 1, 2, 2, 3, 3, 2, 1, 3]

  /** The expected rows, Rows[y][x]. */
  const Rows: seq<seq<int>> := [[1, 3, 4, 2], [4, 2, 1, 3], [3, 4, 2, 1], [2, 1, 3, 4]]

  /** Grid g holds Rows, cell x + y * 4 resolved to its height. */
  predicate IsAnswer(g: seq<Tower>)
  {
    |g| == 16 &&
    g[0] == Tower(1, 1) && g[1] == Tower(3, 4) && g[2] == Tower(4, 8) && g[3] == Tower(2, 2) &&
    g[4] == Tower(4, 8) && g[5] == Tower(2, 2) && g[6] == Tower(1, 1) && g[7] == Tower(3, 4) &&
    g[8] == Tower(3, 4) && g[9] == Tower(4, 8) && g[10] == Tower(2, 2) && g[11] == Tower(1, 1) &&
    g[12] == Tower(2, 2) && g[13] == Tower(1, 1) && g[14] == Tower(3, 4) && g[15] == Tower(4, 8)
  }

  /** A grid with IsAnswer holds Rows, read along the top lines: what city_export reads back from it. */
  lemma AnswerRows(g: seq<Tower>)
    requires IsAnswer(g)
    ensures forall x, y :: 0 <= x < 4 && 0 <= y < 4 ==> g[CellOf(4, TOP, x, y)] == Resolved(Rows[y][x])
  {
    BitIsShift(1);
    BitIsShift(2);
    BitIsShift(3);
    BitIsShift(4);
    forall x, y | 0 <= x < 4 && 0 <= y < 4
      ensures g[CellOf(4, TOP, x, y)] == Resolved(Rows[y][x])
    {
      assert CellOf(4, TOP, x, y) == x + y * 4;
    }
  }

  /** Of four resolved cells, the visible ones are the first and each one taller than all before it. */
  lemma CountFour(s: seq<Tower>, a: int, b: int, c: int, d: int)
    requires |s| == 4 && s[0].height == a && s[1].height == b && s[2].height == c && s[3].height == d
    requires 1 <= a && 1 <= b && 1 <= c && 1 <= d
    ensures CountVisible(s, 4) ==
      1 + (if a < b then 1 else 0) + (if a < c && b < c then 1 else 0) + (if a < d && b < d && c < d then 1 else 0)
  {
    assert SeenOver(s, 0);
    assert SeenOver(s, 1) <==> a < b;
    assert SeenOver(s, 2) <==> a < c && b < c;
    assert SeenOver(s, 3) <==> a < d && b < d && c < d;
    assert CountVisible(s, 1) == 1;
    assert CountVisible(s, 2) == CountVisible(s, 1) + (if a < b then 1 else 0);
    assert CountVisible(s, 3) == CountVisible(s, 2) + (if a < c && b < c then 1 else 0);
  }

  /** Four cells of pairwise different heights. */
  lemma DistinctFour(s: seq<Tower>, a: int, b: int, c: int, d: int)
    requires |s| == 4 && s[0].height == a && s[1].height == b && s[2].height == c && s[3].height == d
    requires a != b && a != c && a != d && b != c && b != d && c != d
    ensures DistinctHeights(s, 4)
  {
    forall i, j | 0 <= i < j < 4 ensures s[i].height != s[j].height {
      assert i == 0 || i == 1 || i == 2;
    }
  }

  /**
   * A line of four cells resolved to the distinct heights a, b, c, d passes
   * city_is_valid's checks under the clue that counts its visible buildings.
   */
  lemma FourResolved(s: seq<Tower>, a: int, b: int, c: int, d: int, clue: int)
    requires |s| == 4 && 1 <= a <= 4 && 1 <= b <= 4 && 1 <= c <= 4 && 1 <= d <= 4
    requires s[0] == Resolved(a) && s[1] == Resolved(b) && s[2] == Resolved(c) && s[3] == Resolved(d)
    requires a != b && a != c && a != d && b != c && b != d && c != d
    requires clue == 1 + (if a < b then 1 else 0) + (if a < c && b < c then 1 else 0) + (if a < d && b < d && c < d then 1 else 0)
    ensures ViewOk(s, clue, 4)
  {
    ResolvedOk(a, 4);
    ResolvedOk(b, 4);
    ResolvedOk(c, 4);
    ResolvedOk(d, 4);
    assert forall i :: 0 <= i < 4 ==> Ok(s[i], 4);
    forall i | 0 <= i < 4 ensures Sound(s[i], 4) && s[i].height != 0 && s[i].options != 0 {
      OkIsSound(s[i], 4);
    }
    ThirdCheckRedundant(s, clue, 4);
    ResolvedLineOk(s, clue, 4);
    CountFour(s, a, b, c, d);
    DistinctFour(s, a, b, c, d);
  }

  /** The resolved towers of a grid of size 4. */
  lemma ResolvedFour()
    ensures Resolved(1) == Tower(1, 1) && Resolved(2) == Tower(2, 2)
    ensures Resolved(3) == Tower(3, 4) && Resolved(4) == Tower(4, 8)
  {
    BitIsShift(1);
    BitIsShift(2);
    BitIsShift(3);
    BitIsShift(4);
  }

  /** Line (side, pos) of g, given the heights its four cells resolve to. */
  lemma LineResolved(g: seq<Tower>, side: int, pos: int, a: int, b: int, c: int, d: int, clue: int)
    requires |g| == 16 && 0 <= side < 4 && 0 <= pos < 4
    requires 1 <= a <= 4 && 1 <= b <= 4 && 1 <= c <= 4 && 1 <= d <= 4
    requires g[CellOf(4, side, pos, 0)] == Resolved(a) && g[CellOf(4, side, pos, 1)] == Resolved(b)
    requires g[CellOf(4, side, pos, 2)] == Resolved(c) && g[CellOf(4, side, pos, 3)] == Resolved(d)
    requires a != b && a != c && a != d && b != c && b != d && c != d
    requires clue == 1 + (if a < b then 1 else 0) + (if a < c && b < c then 1 else 0) + (if a < d && b < d && c < d then 1 else 0)
    ensures ViewOk(Gather(g, Line(4, side, pos)), clue, 4)
  {
    FourResolved(Gather(g, Line(4, side, pos)), a, b, c, d, clue);
  }

  /**
   * Each line of the answer seen from the top (the columns read downwards) passes
   * city_is_valid's checks under its clue.  Side and position are parameters
   * rather than literals, which keeps the verifier from evaluating whole lines.
   */
  lemma TopLine(g: seq<Tower>, side: int, pos: int)
    requires IsAnswer(g) && side == TOP && 0 <= pos < 4
    ensures ViewOk(Gather(g, Line(4, side, pos)), Clues[4 * side + pos], 4)
  {
    ResolvedFour();
    if pos == 0 {
      LineResolved(g, side, pos, 1, 4, 3, 2, 2);
    } else if pos == 1 {
      LineResolved(g, side, pos, 3, 2, 4, 1, 2);
    } else if pos == 2 {
      LineResolved(g, side, pos, 4, 1, 2, 3, 1);
    } else {
      LineResolved(g, side, pos, 2, 3, 1, 4, 3);
    }
  }

  /**
   * Each line of the answer seen from the right (the rows read leftwards) passes
   * city_is_valid's checks under its clue.  Side and position are parameters
   * rather than literals, which keeps the verifier from evaluating whole lines.
   */
  lemma RightLine(g: seq<Tower>, side: int, pos: int)
    requires IsAnswer(g) && side == RIGHT && 0 <= pos < 4
    ensures ViewOk(Gather(g, Line(4, side, pos)), Clues[4 * side + pos], 4)
  {
    ResolvedFour();
    if pos == 0 {
      LineResolved(g, side, pos, 2, 4, 3, 1, 2);
    } else if pos == 1 {
      LineResolved(g, side, pos, 3, 1, 2, 4, 2);
    } else if pos == 2 {
      LineResolved(g, side, pos, 1, 2, 4, 3, 3);
    } else {
      LineResolved(g, side, pos, 4, 3, 1, 2, 1);
    }
  }

  /**
   * Each line of the answer seen from the bottom (the columns right to left read upwards) passes
   * city_is_valid's checks under its clue.  Side and position are parameters
   * rather than literals, which keeps the verifier from evaluating whole lines.
   */
  lemma BottomLine(g: seq<Tower>, side: int, pos: int)
    requires IsAnswer(g) && side == BOTTOM && 0 <= pos < 4
    ensures ViewOk(Gather(g, Line(4, side, pos)), Clues[4 * side + pos], 4)
  {
    ResolvedFour();
    if pos == 0 {
      LineResolved(g, side, pos, 4, 1, 3, 2, 1);
    } else if pos == 1 {
      LineResolved(g, side, pos, 3, 2, 1, 4, 2);
    } else if pos == 2 {
      LineResolved(g, side, pos, 1, 4, 2, 3, 2);
    } else {
      LineResolved(g, side, pos, 2, 3, 4, 1, 3);
    }
  }

  /**
   * Each line of the answer seen from the left (the rows bottom to top read rightwards) passes
   * city_is_valid's checks under its clue.  Side and position are parameters
   * rather than literals, which keeps the verifier from evaluating whole lines.
   */
  lemma LeftLine(g: seq<Tower>, side: int, pos: int)
    requires IsAnswer(g) && side == LEFT && 0 <= pos < 4
    ensures ViewOk(Gather(g, Line(4, side, pos)), Clues[4 * side + pos], 4)
  {
    ResolvedFour();
    if pos == 0 {
      LineResolved(g, side, pos, 2, 1, 3, 4, 3);
    } else if pos == 1 {
      LineResolved(g, side, pos, 3, 4, 2, 1, 2);
    } else if pos == 2 {
      LineResolved(g, side, pos, 4, 2, 1, 3, 1);
    } else {
      LineResolved(g, side, pos, 1, 3, 4, 2, 3);
    }
  }

  /**
   * A grid of size 4 whose streets carry Clues and whose cells hold Rows is
   * what city_is_solved accepts: every line passes city_is_valid's checks and
   * every cell is resolved.
   */
  lemma AnswerSolved(c: City)
    requires c.Placement() && c.size == 4 && IsAnswer(c.towers[..])
    requires forall i :: 0 <= i < 16 ==> c.streets[i].clue == Clues[i]
    ensures c.AllViews() && c.Complete()
  {
    forall i | 0 <= i < 16
      ensures ViewAt(c.towers[..], c.streets, 4, i)
    {
      var side, pos := i / 4, i % 4;
      assert StreetNumber(4, side, pos) == i;
      LaidAt(c.streets, 4, 16, side, pos);
      if side == TOP {
        TopLine(c.towers[..], side, pos);
      } else if side == RIGHT {
        RightLine(c.towers[..], side, pos);
      } else if side == BOTTOM {
        BottomLine(c.towers[..], side, pos);
      } else {
        LeftLine(c.towers[..], side, pos);
      }
    }
  }
}
