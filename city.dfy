/**
 * The grid (city_t in include/skyskrapers/city.h and src/core/city.c): the
 * size, the mask of all heights, the size * size cells indexed x + y * size,
 * the 4 * size streets indexed side * size + pos, and the two flag arrays
 * that mark streets whose statistics or rules need another look.  The
 * `changed` flag is written and read by src/core/city.c although city_t does
 * not declare it; the model gives the class that field.
 */
module Grid {
  import opened Bitmask
  import opened Towers
  import opened Geometry
  import opened Hills
  import opened Views
  import opened Streets

  /** The street with number side * size + pos is the line (side, pos). */
  predicate StreetAt(st: Street, size: int, side: int, pos: int)
    requires 1 <= size && 0 <= side < 4 && 0 <= pos < size
  {
    st.side == side && st.pos == pos && st.cells == Line(size, side, pos)
  }

  /**
   * Streets 0..n-1 each lie on their own line: street side * size + pos is
   * line (side, pos).  Stated street by street so that a fact about one street
   * is drawn out with LaidAt only where it is needed.
   */
  predicate Laid(streets: seq<Street>, size: int, n: int)
    requires 1 <= size && |streets| == 4 * size && 0 <= n <= 4 * size
    decreases n
  {
    n == 0 ||
    (StreetSplit(size, n - 1);
     Laid(streets, size, n - 1) && StreetAt(streets[n - 1], size, (n - 1) / size, (n - 1) % size))
  }

  /** A laid street is on its line. */
  lemma {:induction false} LaidAt(streets: seq<Street>, size: int, n: int, side: int, pos: int)
    requires 1 <= size && |streets| == 4 * size && 0 <= n <= 4 * size && Laid(streets, size, n)
    requires 0 <= side < 4 && 0 <= pos < size && StreetNumber(size, side, pos) < n
    ensures StreetAt(streets[StreetNumber(size, side, pos)], size, side, pos)
    decreases n
  {
    StreetSplit(size, n - 1);
    if StreetNumber(size, side, pos) == n - 1 {
      StreetNumberInjective(size, side, pos, (n - 1) / size, (n - 1) % size);
    } else {
      LaidAt(streets, size, n - 1, side, pos);
    }
  }

  /** Streets made fresh on their lines are laid. */
  lemma {:induction false} LaidFresh(streets: seq<Street>, size: int, n: int)
    requires 1 <= size && |streets| == 4 * size && 0 <= n <= 4 * size
    requires forall side, pos :: 0 <= side < 4 && 0 <= pos < size ==>
               Fresh(streets[StreetNumber(size, side, pos)], size, side, pos)
    ensures Laid(streets, size, n)
    decreases n
  {
    if n > 0 {
      LaidFresh(streets, size, n - 1);
      StreetSplit(size, n - 1);
      assert Fresh(streets[StreetNumber(size, (n - 1) / size, (n - 1) % size)], size, (n - 1) / size, (n - 1) % size);
    }
  }

  /** New clues keep the streets laid. */
  lemma {:induction false} LaidClues(s0: seq<Street>, s1: seq<Street>, size: int, n: int)
    requires 1 <= size && |s0| == |s1| == 4 * size && 0 <= n <= 4 * size && Laid(s0, size, n)
    requires forall i :: 0 <= i < |s0| ==> s1[i] == s0[i].(clue := s1[i].clue)
    ensures Laid(s1, size, n)
    decreases n
  {
    if n > 0 {
      LaidClues(s0, s1, size, n - 1);
      StreetSplit(size, n - 1);
      assert s1[n - 1] == s0[n - 1].(clue := s1[n - 1].clue);
    }
  }

  /** The position of cell j on a line that holds it. */
  function IndexIn(line: seq<int>, j: int): (r: int)
    requires j in line
    ensures 0 <= r < |line| && line[r] == j
  {
    if line[0] == j then 0 else 1 + IndexIn(line[1..], j)
  }

  /**
   * The grid after the restriction of one line with its clue (the body of
   * city_load's second loop), or None when a tower_set_height assertion of the
   * source would fail there.
   */
  function RestrictLine(cells: seq<Tower>, line: seq<int>, clue: int, size: int): (r: Option<seq<Tower>>)
    requires 1 <= size <= 8 && |line| == size && Distinct(line, |cells|)
    ensures r.Some? ==> |r.value| == |cells|
  {
    if Restrictable(Gather(cells, line), clue, size) then
      Some(seq(|cells|, j requires 0 <= j < |cells| =>
        if j in line then RestrictCell(cells[j], IndexIn(line, j), clue, size).value else cells[j]))
    else
      None
  }

  /** Every street's cells are size distinct indices into a grid of n cells. */
  predicate AllPlaced(streets: seq<Street>, size: int, n: int)
  {
    forall i :: 0 <= i < |streets| ==> Placed(streets[i], size, n)
  }

  /** city_load's second phase: the lines of streets 0..n-1 with a nonzero clue restricted in turn. */
  function LoadLines(cells: seq<Tower>, streets: seq<Street>, n: int, size: int): (r: Option<seq<Tower>>)
    requires 1 <= size <= 8 && 0 <= n <= |streets|
    requires AllPlaced(streets, size, |cells|)
    ensures r.Some? ==> |r.value| == |cells|
  {
    if n == 0 then Some(cells)
    else
      var prev := LoadLines(cells, streets, n - 1, size);
      if prev.None? then None
      else if streets[n - 1].clue == 0 then prev
      else RestrictLine(prev.value, streets[n - 1].cells, streets[n - 1].clue, size)
  }

  /** The state Restrict leaves behind is the restricted grid. */
  lemma RestrictLineIs(before: seq<Tower>, after: seq<Tower>, line: seq<int>, clue: int, size: int)
    requires 1 <= size <= 8 && |line| == size && Distinct(line, |before|) && |after| == |before|
    requires Restrictable(Gather(before, line), clue, size)
    requires forall k :: 0 <= k < size ==> Some(after[line[k]]) == RestrictCell(before[line[k]], k, clue, size)
    requires forall j :: 0 <= j < |before| && j !in line ==> after[j] == before[j]
    ensures RestrictLine(before, line, clue, size) == Some(after)
  {
    var r := RestrictLine(before, line, clue, size).value;
    forall j | 0 <= j < |before| ensures r[j] == after[j] {
      if j in line {
        var k := IndexIn(line, j);
        assert Some(after[line[k]]) == RestrictCell(before[line[k]], k, clue, size);
      }
    }
    assert r == after;
  }

  /** A restriction never changes a resolved well-formed cell (or fails on it). */
  lemma RestrictKeepsResolved(t: Tower, k: int, clue: int, size: int)
    requires 0 <= k < size && Ok(t, size) && t.height != 0 && RestrictCell(t, k, clue, size).Some?
    ensures RestrictCell(t, k, clue, size).value == t
  {
    OkResolved(t, size);
    if !(clue == size || (clue == 1 && k == 0)) {
      NarrowOk(t, if clue == 1 then LowMask(size - 1) else ClueMask(clue, k, size), size);
    }
  }

  /**
   * Restricting a line of a well-formed grid keeps every cell well formed and
   * leaves the resolved cells as they were.
   */
  lemma RestrictLineOk(cells: seq<Tower>, line: seq<int>, clue: int, size: int)
    requires 1 <= size <= 8 && |line| == size && Distinct(line, |cells|)
    requires forall j :: 0 <= j < |cells| ==> Ok(cells[j], size)
    requires RestrictLine(cells, line, clue, size).Some?
    ensures forall j :: 0 <= j < |cells| ==> Ok(RestrictLine(cells, line, clue, size).value[j], size)
    ensures forall j :: 0 <= j < |cells| && cells[j].height != 0 ==>
              RestrictLine(cells, line, clue, size).value[j] == cells[j]
  {
    var r := RestrictLine(cells, line, clue, size).value;
    forall j | 0 <= j < |cells| && j in line
      ensures Ok(r[j], size) && (cells[j].height != 0 ==> r[j] == cells[j])
    {
      var k := IndexIn(line, j);
      assert Gather(cells, line)[k] == cells[j];
      RestrictCellOk(cells[j], k, clue, size);
      if cells[j].height != 0 {
        RestrictKeepsResolved(cells[j], k, clue, size);
      }
    }
  }

  /** city_load keeps a well-formed grid well formed and never changes a resolved cell. */
  lemma {:induction false} LoadLinesOk(cells: seq<Tower>, streets: seq<Street>, n: int, size: int)
    requires 1 <= size <= 8 && 0 <= n <= |streets|
    requires AllPlaced(streets, size, |cells|)
    requires forall j :: 0 <= j < |cells| ==> Ok(cells[j], size)
    requires LoadLines(cells, streets, n, size).Some?
    ensures forall j :: 0 <= j < |cells| ==> Ok(LoadLines(cells, streets, n, size).value[j], size)
    ensures forall j :: 0 <= j < |cells| && cells[j].height != 0 ==>
              LoadLines(cells, streets, n, size).value[j] == cells[j]
  {
    if n > 0 {
      LoadLinesOk(cells, streets, n - 1, size);
      var prev := LoadLines(cells, streets, n - 1, size).value;
      if streets[n - 1].clue != 0 {
        LoadStepOk(cells, prev, LoadLines(cells, streets, n, size).value, streets[n - 1].cells, streets[n - 1].clue, size);
      }
    }
  }

  /** One restricted line of city_load's second phase keeps the grid well formed and the resolved cells of cells. */
  lemma LoadStepOk(cells: seq<Tower>, prev: seq<Tower>, next: seq<Tower>, line: seq<int>, clue: int, size: int)
    requires 1 <= size <= 8 && |line| == size && |prev| == |cells| && Distinct(line, |prev|)
    requires forall j :: 0 <= j < |prev| ==> Ok(prev[j], size)
    requires forall j :: 0 <= j < |cells| && cells[j].height != 0 ==> prev[j] == cells[j]
    requires RestrictLine(prev, line, clue, size) == Some(next)
    ensures forall j :: 0 <= j < |cells| ==> Ok(next[j], size)
    ensures forall j :: 0 <= j < |cells| && cells[j].height != 0 ==> next[j] == cells[j]
  {
    RestrictLineOk(prev, line, clue, size);
  }

  /** One more street of city_load's second phase. */
  lemma LoadLinesNext(cells: seq<Tower>, streets: seq<Street>, n: int, size: int, c: seq<Tower>)
    requires 1 <= size <= 8 && 0 <= n < |streets|
    requires AllPlaced(streets, size, |cells|)
    requires LoadLines(cells, streets, n, size) == Some(c)
    ensures streets[n].clue == 0 ==> LoadLines(cells, streets, n + 1, size) == Some(c)
    ensures streets[n].clue != 0 ==>
              LoadLines(cells, streets, n + 1, size) == RestrictLine(c, streets[n].cells, streets[n].clue, size)
  {}

  /** Once an assertion would fail, the load fails. */
  lemma {:induction false} LoadLinesFails(cells: seq<Tower>, streets: seq<Street>, i: int, n: int, size: int)
    requires 1 <= size <= 8 && 0 <= i <= n <= |streets|
    requires AllPlaced(streets, size, |cells|)
    requires LoadLines(cells, streets, i, size).None?
    ensures LoadLines(cells, streets, n, size).None?
  {
    if i < n {
      LoadLinesFails(cells, streets, i, n - 1, size);
    }
  }

  /** trace[k] is the grid after the first k streets of city_load's second phase. */
  predicate Traces(trace: seq<Option<seq<Tower>>>, cells: seq<Tower>, streets: seq<Street>, size: int)
    requires 1 <= size <= 8 && AllPlaced(streets, size, |cells|)
  {
    |trace| == |streets| + 1 &&
    forall k {:trigger LoadLines(cells, streets, k, size)} :: 0 <= k <= |streets| ==>
      trace[k] == LoadLines(cells, streets, k, size)
  }

  /** The trace of city_load's second phase from the grid cells. */
  lemma TraceOf(cells: seq<Tower>, streets: seq<Street>, size: int) returns (trace: seq<Option<seq<Tower>>>)
    requires 1 <= size <= 8 && AllPlaced(streets, size, |cells|)
    ensures Traces(trace, cells, streets, size)
  {
    trace := seq(|streets| + 1, k requires 0 <= k <= |streets| => LoadLines(cells, streets, k, size));
  }

  /** Once an assertion would fail, every later state of the trace is a failure. */
  lemma TraceFails(trace: seq<Option<seq<Tower>>>, cells: seq<Tower>, streets: seq<Street>, size: int, i: int, n: int)
    requires 1 <= size <= 8 && AllPlaced(streets, size, |cells|) && Traces(trace, cells, streets, size)
    requires 0 <= i <= n <= |streets| && trace[i].None?
    ensures trace[n].None?
  {
    assert trace[i] == LoadLines(cells, streets, i, size);
    LoadLinesFails(cells, streets, i, n, size);
    assert trace[n] == LoadLines(cells, streets, n, size);
  }

  /** The streets s with the first n of them given their clues. */
  function WithClues(s: seq<Street>, clues: seq<int>, n: int): (r: seq<Street>)
    requires |clues| == |s| && 0 <= n <= |s|
    ensures |r| == |s|
  {
    seq(|s|, i requires 0 <= i < |s| => if i < n then s[i].(clue := clues[i]) else s[i])
  }

  /** The flags f with the first n of them raised where the clue is nonzero. */
  function Flagged(f: seq<bool>, clues: seq<int>, n: int): (r: seq<bool>)
    requires |clues| == |f| && 0 <= n <= |f|
    ensures |r| == |f|
  {
    seq(|f|, i requires 0 <= i < |f| => if i < n then f[i] || clues[i] != 0 else f[i])
  }

  /** One more clue. */
  lemma WithCluesNext(s: seq<Street>, clues: seq<int>, n: int)
    requires |clues| == |s| && 0 <= n < |s|
    ensures WithClues(s, clues, n + 1) == WithClues(s, clues, n)[n := WithClues(s, clues, n)[n].(clue := clues[n])]
  {
    assert WithClues(s, clues, n)[n] == s[n];
  }

  /** One more flag. */
  lemma FlaggedNext(f: seq<bool>, clues: seq<int>, n: int)
    requires |clues| == |f| && 0 <= n < |f|
    ensures clues[n] != 0 ==> Flagged(f, clues, n + 1) == Flagged(f, clues, n)[n := true]
    ensures clues[n] == 0 ==> Flagged(f, clues, n + 1) == Flagged(f, clues, n)
  {
    assert Flagged(f, clues, n)[n] == f[n];
  }

  /** The street loop of city_make: street side * size + pos is made on line (side, pos). */
  method MakeStreets(size: int) returns (streets: seq<Street>)
    requires 1 <= size <= 8
    ensures |streets| == 4 * size
    ensures forall side, pos :: 0 <= side < 4 && 0 <= pos < size ==>
              Fresh(streets[StreetNumber(size, side, pos)], size, side, pos)
    ensures forall i :: 0 <= i < 4 * size ==> Placed(streets[i], size, size * size)
  {
    var blank := Street(0, 0, 0, true, 0, 0, 0, 0, [], []);
    streets := seq(4 * size, _ => blank);
    var side := 0;
    while side < 4
      invariant 0 <= side <= 4 && |streets| == 4 * size
      invariant forall sd, pos :: 0 <= sd < side && 0 <= pos < size ==>
                  Fresh(streets[StreetNumber(size, sd, pos)], size, sd, pos)
      invariant forall i :: 0 <= i < side * size ==> Placed(streets[i], size, size * size)
    {
      var pos := 0;
      while pos < size
        invariant 0 <= pos <= size && |streets| == 4 * size
        invariant forall sd, p :: 0 <= sd < side && 0 <= p < size ==>
                    Fresh(streets[StreetNumber(size, sd, p)], size, sd, p)
        invariant forall p :: 0 <= p < pos ==> Fresh(streets[StreetNumber(size, side, p)], size, side, p)
        invariant forall i :: 0 <= i < side * size + pos ==> Placed(streets[i], size, size * size)
      {
        var st := Make(size, side, pos);
        LineDistinct(size, side, pos);
        streets := streets[StreetNumber(size, side, pos) := st];
        pos := pos + 1;
      }
      assert side * size + size == (side + 1) * size;
      side := side + 1;
    }
  }

  /** Street i passes city_is_valid's checks against its clue on the cells g. */
  predicate ViewAt(g: seq<Tower>, streets: seq<Street>, size: int, i: int)
    requires 1 <= size <= 8 && AllPlaced(streets, size, |g|) && 0 <= i < |streets|
  {
    ViewOk(Gather(g, streets[i].cells), streets[i].clue, size)
  }

  /** Every street passes city_is_valid's checks on the cells g. */
  predicate ViewsOk(g: seq<Tower>, streets: seq<Street>, size: int)
    requires 1 <= size <= 8 && AllPlaced(streets, size, |g|)
  {
    forall i :: 0 <= i < |streets| ==> ViewAt(g, streets, size, i)
  }

  /** The first n lines seen from side pass their checks by the verdicts v. */
  predicate SidePasses(v: seq<bool>, size: int, side: int, n: int)
    requires 1 <= size && |v| == 4 * size && 0 <= side < 4 && 0 <= n <= size
  {
    forall p :: 0 <= p < n ==> v[StreetNumber(size, side, p)]
  }

  lemma SidePassesNext(v: seq<bool>, size: int, side: int, n: int)
    requires 1 <= size && |v| == 4 * size && 0 <= side < 4 && 0 <= n < size
    requires SidePasses(v, size, side, n) && v[StreetNumber(size, side, n)]
    ensures SidePasses(v, size, side, n + 1)
  {}

  /** v[i] is the verdict of city_is_valid's checks on street i over the cells g. */
  predicate Verdicts(v: seq<bool>, g: seq<Tower>, streets: seq<Street>, size: int)
    requires 1 <= size <= 8 && AllPlaced(streets, size, |g|)
  {
    |v| == |streets| &&
    forall i {:trigger ViewAt(g, streets, size, i)} :: 0 <= i < |streets| ==> v[i] == ViewAt(g, streets, size, i)
  }

  /** The verdicts on every street. */
  lemma VerdictsOf(g: seq<Tower>, streets: seq<Street>, size: int) returns (v: seq<bool>)
    requires 1 <= size <= 8 && AllPlaced(streets, size, |g|)
    ensures Verdicts(v, g, streets, size)
  {
    v := seq(|streets|, i requires 0 <= i < |streets| => ViewAt(g, streets, size, i));
  }

  /** All verdicts hold exactly when every street passes. */
  lemma VerdictsAll(v: seq<bool>, g: seq<Tower>, streets: seq<Street>, size: int)
    requires 1 <= size <= 8 && AllPlaced(streets, size, |g|) && Verdicts(v, g, streets, size)
    ensures (forall i :: 0 <= i < |v| ==> v[i]) == ViewsOk(g, streets, size)
  {
    if !ViewsOk(g, streets, size) {
      var i :| 0 <= i < |streets| && !ViewAt(g, streets, size, i);
      assert !v[i];
    } else {
      forall i | 0 <= i < |v| ensures v[i] {
        assert ViewAt(g, streets, size, i);
      }
    }
  }

  /** The lines (side, pos) are all the streets. */
  lemma ViewsCover(v: seq<bool>, size: int)
    requires 1 <= size <= 8 && |v| == 4 * size
    requires forall sd, pos :: 0 <= sd < 4 && 0 <= pos < size ==> v[StreetNumber(size, sd, pos)]
    ensures forall i :: 0 <= i < |v| ==> v[i]
  {
    forall i | 0 <= i < 4 * size ensures v[i] {
      StreetSplit(size, i);
    }
  }

  class City {
    const size: int
    var mask: Bits
    var changed: bool
    const towers: array<Tower>
    var streets: seq<Street>
    const needUpdate: array<bool>
    const needHandle: array<bool>

    /** The grid's shape, which no operation changes. */
    ghost predicate Shape()
      reads this
    {
      1 <= size <= 8 && towers.Length == size * size && |streets| == 4 * size &&
      needUpdate.Length == 4 * size && needHandle.Length == 4 * size && needUpdate != needHandle
    }

    /**
     * The grid invariant: the shape, the full mask, every street on its own
     * line, and every cell well formed.
     */
    ghost predicate Valid()
      reads this, towers
    {
      Placement() && forall k :: 0 <= k < size * size ==> Ok(towers[k], size)
    }

    /** The invariant without the cells: the shape, the mask and the streets. */
    ghost predicate Placement()
      reads this
    {
      Shape() && mask == LowMask(size) && Laid(streets, size, 4 * size) &&
      (forall i :: 0 <= i < 4 * size ==> Placed(streets[i], size, size * size))
    }

    /** The arrays of the grid. */
    ghost function Repr(): set<object>
      reads this
    {
      {towers as object, needUpdate as object, needHandle as object}
    }

    /**
     * city_make: the mask accumulates the low size bits, every cell starts
     * unresolved with that mask, every street is made on its line, and both
     * flag arrays are cleared.
     */
    constructor (n: int)
      requires 1 <= n <= 8
      ensures Valid() && size == n && !changed && fresh(Repr())
      ensures forall k :: 0 <= k < n * n ==> towers[k] == Init(LowMask(n))
      ensures forall side, pos :: 0 <= side < 4 && 0 <= pos < n ==>
                Fresh(streets[StreetNumber(n, side, pos)], n, side, pos)
      ensures forall i :: 0 <= i < 4 * n ==> !needUpdate[i] && !needHandle[i]
    {
      size := n;
      changed := false;
      var m: Bits := 1;
      var acc: Bits := 0;
      var i := 0;
      while i < n
        invariant 0 <= i <= n && acc == LowMask(i) && (i < 8 ==> m == Bit(i + 1))
      {
        LowMaskGrow(i);
        acc := acc | m;
        if i < 7 {
          ShiftLeftBit(i + 1);
        }
        m := m << 1;
        i := i + 1;
      }
      mask := acc;
      towers := new Tower[n * n];
      needUpdate := new bool[4 * n](_ => false);
      needHandle := new bool[4 * n](_ => false);
      var sts := MakeStreets(n);
      LaidFresh(sts, n, 4 * n);
      streets := sts;
      new;
      InitOk(n);
      MakeTowers();
    }

    /** The cell loop of city_make: cell (x, y), reached as the top line x's y-th cell, starts unresolved. */
    method MakeTowers()
      requires Shape()
      modifies towers
      ensures forall k :: 0 <= k < size * size ==> towers[k] == Init(mask)
    {
      var x := 0;
      while x < size
        invariant 0 <= x <= size
        invariant forall x', y' :: 0 <= x' < x && 0 <= y' < size ==> towers[CellOf(size, TOP, x', y')] == Init(mask)
      {
        var y := 0;
        while y < size
          invariant 0 <= y <= size
          invariant forall x', y' :: 0 <= x' < x && 0 <= y' < size ==> towers[CellOf(size, TOP, x', y')] == Init(mask)
          invariant forall y' :: 0 <= y' < y ==> towers[CellOf(size, TOP, x, y')] == Init(mask)
        {
          var k := GetTower(TOP, x, y);
          forall x', y' | 0 <= x' < size && 0 <= y' < size && CellOf(size, TOP, x', y') == k
            ensures x' == x && y' == y
          {
            CellCoordinates(size, x', y', x, y);
          }
          towers[k] := Init(mask);
          y := y + 1;
        }
        x := x + 1;
      }
      forall k | 0 <= k < size * size ensures towers[k] == Init(mask) {
        CellSplit(size, k);
      }
    }

    /**
     * city_load: every street takes its clue, and a street with a nonzero clue
     * is flagged for a refresh and for the rules; then each such street's line
     * is restricted in street order (LoadLines).  The result is false where an
     * assertion of the source would abort the program; the grid is then left
     * as it was at that point.
     */
    method Load(clues: seq<int>) returns (ok: bool)
      requires Valid() && |clues| == 4 * size
      modifies this, towers, needUpdate, needHandle
      ensures mask == old(mask) && changed == old(changed) && |streets| == 4 * size
      ensures forall i :: 0 <= i < 4 * size ==> streets[i] == old(streets[i]).(clue := clues[i])
      ensures forall i :: 0 <= i < 4 * size ==>
                needUpdate[i] == (old(needUpdate[i]) || clues[i] != 0) &&
                needHandle[i] == (old(needHandle[i]) || clues[i] != 0)
      ensures Placement()
      ensures ok == LoadLines(old(towers[..]), streets, 4 * size, size).Some?
      ensures ok ==> Some(towers[..]) == LoadLines(old(towers[..]), streets, 4 * size, size)
      ensures ok ==> Valid()
    {
      ghost var start := towers[..];
      SetClues(clues);
      ok := LoadStreets();
      if ok {
        LoadLinesOk(start, streets, 4 * size, size);
      }
    }

    /** city_load's second loop: the restriction of every street with a nonzero clue, in street order. */
    method LoadStreets() returns (ok: bool)
      requires Placement()
      modifies towers
      ensures ok == LoadLines(old(towers[..]), streets, 4 * size, size).Some?
      ensures ok ==> Some(towers[..]) == LoadLines(old(towers[..]), streets, 4 * size, size)
    {
      ghost var start := towers[..];
      assert AllPlaced(streets, size, |start|);
      ghost var trace := TraceOf(start, streets, size);
      assert trace[0] == LoadLines(start, streets, 0, size);
      ghost var n := 0;
      ok := true;
      var side := 0;
      while side < 4
        invariant 0 <= side <= 4 && n == side * size
        invariant Some(towers[..]) == trace[n]
      {
        ok := LoadSide(side, n, start, trace);
        if !ok {
          TraceFails(trace, start, streets, size, n + size, 4 * size);
          break;
        }
        side := side + 1;
        n := n + size;
      }
      assert trace[4 * size] == LoadLines(start, streets, 4 * size, size);
    }

    /** The inner loop of city_load's second phase, over the streets of one side; n is the number of the first. */
    method LoadSide(side: int, ghost n: int, ghost start: seq<Tower>, ghost trace: seq<Option<seq<Tower>>>) returns (ok: bool)
      requires Placement() && 0 <= side < 4 && n == side * size && AllPlaced(streets, size, |start|)
      requires Traces(trace, start, streets, size) && Some(towers[..]) == trace[n]
      modifies towers
      ensures n + size <= 4 * size
      ensures ok ==> Some(towers[..]) == trace[n + size]
      ensures !ok ==> trace[n + size].None?
    {
      assert n + size == (side + 1) * size <= 4 * size;
      ghost var m := n;
      var pos := 0;
      while pos < size
        invariant 0 <= pos <= size && m == n + pos
        invariant Some(towers[..]) == trace[m]
      {
        ok := LoadStreet(side, pos, m, start, trace);
        if !ok {
          TraceFails(trace, start, streets, size, m + 1, n + size);
          return;
        }
        pos := pos + 1;
        m := m + 1;
      }
      ok := true;
    }

    /** The body of city_load's second loop: street m, the street of line (side, pos), restricts its line if its clue is nonzero. */
    method LoadStreet(side: int, pos: int, ghost m: int, ghost start: seq<Tower>, ghost trace: seq<Option<seq<Tower>>>)
      returns (ok: bool)
      requires Placement() && 0 <= side < 4 && 0 <= pos < size && AllPlaced(streets, size, |start|)
      requires m == StreetNumber(size, side, pos)
      requires Traces(trace, start, streets, size) && Some(towers[..]) == trace[m]
      modifies towers
      ensures ok ==> Some(towers[..]) == trace[m + 1]
      ensures !ok ==> trace[m + 1].None?
    {
      assert trace[m] == LoadLines(start, streets, m, size);
      assert trace[m + 1] == LoadLines(start, streets, m + 1, size);
      var clue := GetClue(side, pos);
      var i := StreetNumber(size, side, pos);
      LoadLinesNext(start, streets, i, size, towers[..]);
      ok := true;
      if clue != 0 {
        ok := RestrictStreet(i);
      }
    }

    /** The restriction of street i's line, whose clue is nonzero. */
    method RestrictStreet(i: int) returns (ok: bool)
      requires Placement() && 0 <= i < 4 * size && streets[i].clue != 0
      modifies towers
      ensures ok == RestrictLine(old(towers[..]), streets[i].cells, streets[i].clue, size).Some?
      ensures ok ==> Some(towers[..]) == RestrictLine(old(towers[..]), streets[i].cells, streets[i].clue, size)
    {
      ghost var before := towers[..];
      ok := Restrict(towers, streets[i].cells, streets[i].clue, size, mask);
      if ok {
        RestrictLineIs(before, towers[..], streets[i].cells, streets[i].clue, size);
      }
    }

    /** city_load's first loop: clues and flags. */
    method SetClues(clues: seq<int>)
      requires Valid() && |clues| == 4 * size
      modifies this, needUpdate, needHandle
      ensures mask == old(mask) && changed == old(changed) && |streets| == 4 * size
      ensures forall i :: 0 <= i < 4 * size ==> streets[i] == old(streets[i]).(clue := clues[i])
      ensures forall i :: 0 <= i < 4 * size ==>
                needUpdate[i] == (old(needUpdate[i]) || clues[i] != 0) &&
                needHandle[i] == (old(needHandle[i]) || clues[i] != 0)
      ensures Valid()
    {
      ghost var s0 := streets;
      SetEach(clues);
      LaidClues(s0, streets, size, 4 * size);
    }

    /** One pass of those loops: street i takes its clue and, when the clue is nonzero, both flags. */
    method SetClue(clues: seq<int>, i: int, ghost s0: seq<Street>, ghost u0: seq<bool>, ghost h0: seq<bool>)
      requires Shape() && |clues| == 4 * size && |s0| == |u0| == |h0| == 4 * size && 0 <= i < 4 * size
      requires streets == WithClues(s0, clues, i)
      requires needUpdate[..] == Flagged(u0, clues, i) && needHandle[..] == Flagged(h0, clues, i)
      modifies this, needUpdate, needHandle
      ensures mask == old(mask) && changed == old(changed)
      ensures streets == WithClues(s0, clues, i + 1)
      ensures needUpdate[..] == Flagged(u0, clues, i + 1) && needHandle[..] == Flagged(h0, clues, i + 1)
    {
      WithCluesNext(s0, clues, i);
      FlaggedNext(u0, clues, i);
      FlaggedNext(h0, clues, i);
      streets := streets[i := streets[i].(clue := clues[i])];
      if clues[i] != 0 {
        needUpdate[i] := true;
        needHandle[i] := true;
      }
    }

    /** The loops of city_load's first phase. */
    method SetEach(clues: seq<int>)
      requires Shape() && |clues| == 4 * size
      modifies this, needUpdate, needHandle
      ensures mask == old(mask) && changed == old(changed) && |streets| == 4 * size
      ensures forall i :: 0 <= i < 4 * size ==> streets[i] == old(streets[i]).(clue := clues[i])
      ensures forall i :: 0 <= i < 4 * size ==>
                needUpdate[i] == (old(needUpdate[i]) || clues[i] != 0) &&
                needHandle[i] == (old(needHandle[i]) || clues[i] != 0)
    {
      ghost var s0, u0, h0 := streets, needUpdate[..], needHandle[..];
      ghost var n := 0;
      var side := 0;
      while side < 4
        invariant 0 <= side <= 4 && n == side * size
        invariant mask == old(mask) && changed == old(changed)
        invariant streets == WithClues(s0, clues, n)
        invariant needUpdate[..] == Flagged(u0, clues, n) && needHandle[..] == Flagged(h0, clues, n)
      {
        var pos := 0;
        while pos < size
          invariant 0 <= pos <= size && n == side * size + pos
          invariant mask == old(mask) && changed == old(changed)
          invariant streets == WithClues(s0, clues, n)
          invariant needUpdate[..] == Flagged(u0, clues, n) && needHandle[..] == Flagged(h0, clues, n)
        {
          var i := StreetNumber(size, side, pos);
          SetClue(clues, i, s0, u0, h0);
          pos := pos + 1;
          n := n + 1;
        }
        side := side + 1;
      }
    }

    /**
     * city_get_tower: the index-th cell of line (side, pos), which on a valid
     * grid is the index-th cell of that line's street.  A side outside 0..3
     * makes the source abort; here it is excluded by the precondition.
     */
    method GetTower(side: int, pos: int, index: int) returns (k: int)
      requires Shape() && 0 <= side < 4 && 0 <= pos < size && 0 <= index < size
      ensures k == ViewX(size, side, pos, index) + ViewY(size, side, pos, index) * size
      ensures k == CellOf(size, side, pos, index) && 0 <= k < towers.Length
    {
      var x := 0;
      var y := 0;
      if side == TOP {
        x, y := pos, index;
      } else if side == RIGHT {
        x, y := size - 1 - index, pos;
      } else if side == BOTTOM {
        x, y := size - 1 - pos, size - 1 - index;
      } else {
        x, y := index, size - 1 - pos;
      }
      k := x + y * size;
    }

    /** On a valid grid the index-th cell of line (side, pos) is the index-th cell of that line's street. */
    lemma StreetCell(side: int, pos: int, index: int)
      requires Placement() && 0 <= side < 4 && 0 <= pos < size && 0 <= index < size
      ensures CellOf(size, side, pos, index) == streets[StreetNumber(size, side, pos)].cells[index]
    {
      LaidAt(streets, size, 4 * size, side, pos);
    }

    /** city_get_clue: the clue of street side * size + pos, the street of line (side, pos). */
    method GetClue(side: int, pos: int) returns (clue: int)
      requires Placement() && 0 <= side < 4 && 0 <= pos < size
      ensures clue == streets[StreetNumber(size, side, pos)].clue
      ensures exists i :: 0 <= i < 4 * size && streets[i].side == side && streets[i].pos == pos &&
                          streets[i].cells == Line(size, side, pos) && streets[i].clue == clue
    {
      clue := streets[side * size + pos].clue;
      LaidAt(streets, size, 4 * size, side, pos);
    }

    /**
     * city_notify_of_tower_change: the four streets through cell (x, y), and
     * no others, are flagged for a refresh and for the rules.
     */
    method NotifyOfTowerChange(x: int, y: int)
      requires Shape() && 0 <= x < size && 0 <= y < size
      modifies needUpdate, needHandle
      ensures forall i :: 0 <= i < 4 * size ==>
                needUpdate[i] == (old(needUpdate[i]) || i in StreetsThrough(size, x, y)) &&
                needHandle[i] == (old(needHandle[i]) || i in StreetsThrough(size, x, y))
    {
      var sz := size;
      var i := x;
      needUpdate[i] := true;
      needHandle[i] := true;
      i := sz + y;
      needUpdate[i] := true;
      needHandle[i] := true;
      i := 3 * sz - x - 1;
      needUpdate[i] := true;
      needHandle[i] := true;
      i := 4 * sz - y - 1;
      needUpdate[i] := true;
      needHandle[i] := true;
    }

    /** city_is_deadloop: true when no rule changed the grid since the last call, and the flag is cleared. */
    method IsDeadloop() returns (dead: bool)
      modifies this
      ensures dead == !old(changed) && !changed
      ensures mask == old(mask) && streets == old(streets)
    {
      var changes := changed;
      changed := false;
      dead := !changes;
    }

    /**
     * city_export: row y of the result holds the heights of row y of the grid,
     * 0 for an unresolved cell.
     */
    method Export() returns (rows: seq<seq<int>>)
      requires Shape()
      ensures |rows| == size
      ensures forall y :: 0 <= y < size ==> |rows[y]| == size
      ensures forall x, y :: 0 <= x < size && 0 <= y < size ==> rows[y][x] == towers[CellOf(size, TOP, x, y)].height
    {
      rows := [];
      var y := 0;
      while y < size
        invariant 0 <= y <= size && |rows| == y
        invariant forall y' :: 0 <= y' < y ==> |rows[y']| == size
        invariant forall x, y' :: 0 <= x < size && 0 <= y' < y ==> rows[y'][x] == towers[CellOf(size, TOP, x, y')].height
      {
        var t: seq<int> := [];
        var x := 0;
        while x < size
          invariant 0 <= x <= size && |t| == x
          invariant forall x' :: 0 <= x' < x ==> t[x'] == towers[CellOf(size, TOP, x', y)].height
        {
          var k := GetTower(TOP, x, y);
          t := t + [towers[k].height];
          x := x + 1;
        }
        rows := rows + [t];
        y := y + 1;
      }
    }
  
    /** The cells of street i, in its order. */
    ghost function CellsOf(i: int): (cells: seq<Tower>)
      requires Placement() && 0 <= i < 4 * size
      reads this, towers
      ensures cells == Gather(towers[..], streets[i].cells)
    {
      Gather(towers[..], streets[i].cells)
    }

    /** Every line passes city_is_valid's checks against its clue. */
    ghost predicate AllViews()
      requires Placement()
      reads this, towers
    {
      ViewsOk(towers[..], streets, size)
    }

    /** Every line passes check_valid against its clue. */
    ghost predicate AllLines()
      requires Placement()
      reads this, towers
    {
      forall i :: 0 <= i < 4 * size ==> LineOk(CellsOf(i), streets[i].clue, size)
    }

    /** Every cell is resolved. */
    ghost predicate Complete()
      requires Shape()
      reads this, towers
    {
      forall k :: 0 <= k < size * size ==> towers[k].height != 0
    }

    /**
     * city_is_valid: every line, read through city_get_tower, passes the
     * accumulator of Module Views and the clue checks.  On a well-formed grid
     * that is the same verdict as check_valid on every street.
     */
    method IsValid() returns (ok: bool)
      requires Valid()
      ensures ok == AllViews()
      ensures ok == AllLines()
    {
      ghost var v := VerdictsOf(towers[..], streets, size);
      ok := CheckViews(v);
      VerdictsAll(v, towers[..], streets, size);
      ViewsAreLines();
    }

    /** The outer loop of city_is_valid, over the sides; v holds the verdicts on the grid's streets. */
    method CheckViews(ghost v: seq<bool>) returns (ok: bool)
      requires Placement() && Verdicts(v, towers[..], streets, size)
      ensures ok == forall i :: 0 <= i < |v| ==> v[i]
    {
      var side := 0;
      while side < 4
        invariant 0 <= side <= 4
        invariant forall sd, pos :: 0 <= sd < side && 0 <= pos < size ==> v[StreetNumber(size, sd, pos)]
      {
        ok := CheckSide(side, v);
        if !ok {
          return;
        }
        side := side + 1;
      }
      ViewsCover(v, size);
      ok := true;
    }

    /** The inner loop of city_is_valid, over the lines seen from one side. */
    method CheckSide(side: int, ghost v: seq<bool>) returns (ok: bool)
      requires Placement() && 0 <= side < 4 && Verdicts(v, towers[..], streets, size)
      ensures ok == forall pos :: 0 <= pos < size ==> v[StreetNumber(size, side, pos)]
    {
      var pos := 0;
      while pos < size
        invariant 0 <= pos <= size && SidePasses(v, size, side, pos)
      {
        ok := LineView(side, pos, v);
        if !ok {
          return;
        }
        SidePassesNext(v, size, side, pos);
        pos := pos + 1;
      }
      ok := true;
    }

    /** One line of city_is_valid. */
    method LineView(side: int, pos: int, ghost v: seq<bool>) returns (ok: bool)
      requires Placement() && 0 <= side < 4 && 0 <= pos < size && Verdicts(v, towers[..], streets, size)
      ensures ok == ViewAt(towers[..], streets, size, StreetNumber(size, side, pos))
      ensures ok == v[StreetNumber(size, side, pos)]
    {
      ghost var cells := Gather(towers[..], streets[StreetNumber(size, side, pos)].cells);
      assert v[StreetNumber(size, side, pos)] == ViewAt(towers[..], streets, size, StreetNumber(size, side, pos));
      var info := Reset;
      var i := 0;
      while i < size
        invariant 0 <= i <= size && info == Collect(cells, i, size) && info.valid
      {
        var k := GetTower(side, pos, i);
        StreetCell(side, pos, i);
        info := Add(info, towers[k], size);
        i := i + 1;
        if !info.valid {
          InvalidStays(cells, i, size, size);
          return false;
        }
      }
      var clue := GetClue(side, pos);
      if clue == 0 {
        return true;
      }
      if info.visible > clue + info.foreground + info.offstage {
        return false;
      }
      if info.visible + info.foreground + info.offstage < clue {
        return false;
      }
      if info.visible + info.foreground == 0 && info.offstage != clue {
        return false;
      }
      return true;
    }

    /** On a well-formed grid the third check of city_is_valid never fires. */
    lemma ViewsAreLines()
      requires Valid()
      ensures AllViews() == AllLines()
    {
      forall i | 0 <= i < 4 * size
        ensures ViewAt(towers[..], streets, size, i) == LineOk(CellsOf(i), streets[i].clue, size)
      {
        ThirdCheckRedundant(CellsOf(i), streets[i].clue, size);
      }
    }

    /** city_is_solved: the grid is valid and every cell is resolved. */
    method IsSolved() returns (ok: bool)
      requires Valid()
      ensures ok == (AllViews() && Complete())
    {
      ok := IsValid();
      if !ok {
        return;
      }
      ok := AllResolved();
    }

    /** The outer loop of city_is_solved, over the columns. */
    method AllResolved() returns (ok: bool)
      requires Shape()
      ensures ok == Complete()
    {
      var x := 0;
      while x < size
        invariant 0 <= x <= size
        invariant forall x', y :: 0 <= x' < x && 0 <= y < size ==> towers[CellOf(size, TOP, x', y)].height != 0
      {
        ok := ColumnResolved(x);
        if !ok {
          return;
        }
        x := x + 1;
      }
      ColumnsComplete();
      ok := true;
    }

    /** The inner loop of city_is_solved: the cells of column x, top to bottom. */
    method ColumnResolved(x: int) returns (ok: bool)
      requires Shape() && 0 <= x < size
      ensures ok == forall y :: 0 <= y < size ==> towers[CellOf(size, TOP, x, y)].height != 0
    {
      var y := 0;
      while y < size
        invariant 0 <= y <= size
        invariant forall y' :: 0 <= y' < y ==> towers[CellOf(size, TOP, x, y')].height != 0
      {
        var k := GetTower(TOP, x, y);
        if towers[k].height == 0 {
          return false;
        }
        y := y + 1;
      }
      ok := true;
    }

    /** Visiting every column top to bottom visits every cell. */
    lemma ColumnsComplete()
      requires Shape()
      requires forall x, y :: 0 <= x < size && 0 <= y < size ==> towers[CellOf(size, TOP, x, y)].height != 0
      ensures Complete()
    {
      forall k | 0 <= k < size * size ensures towers[k].height != 0 {
        CellSplit(size, k);
      }
    }

    /**
     * What a solved grid is: on every line the heights are distinct and, under
     * a clue, exactly clue buildings are visible.
     */
    lemma SolvedMeaning()
      requires Valid() && AllViews() && Complete()
      ensures forall i :: 0 <= i < 4 * size ==>
                DistinctHeights(CellsOf(i), size) &&
                (streets[i].clue == 0 || CountVisible(CellsOf(i), size) == streets[i].clue)
    {
      ViewsAreLines();
      forall i | 0 <= i < 4 * size
        ensures DistinctHeights(CellsOf(i), size) &&
                (streets[i].clue == 0 || CountVisible(CellsOf(i), size) == streets[i].clue)
      {
        var cells := CellsOf(i);
        forall j | 0 <= j < size ensures Sound(cells[j], size) && cells[j].height != 0 {
          OkIsSound(cells[j], size);
        }
        ResolvedLineOk(cells, streets[i].clue, size);
      }
    }

    /**
     * city_copy into an existing grid of the same size: the mask, the flag,
     * every cell, every street record and both flag arrays become the
     * source's.
     */
    method CopyFrom(src: City)
      requires Shape() && src.Shape() && src.size == size && src != this && Repr() !! src.Repr()
      modifies this, towers, needUpdate, needHandle
      ensures mask == src.mask && changed == src.changed && streets == src.streets
      ensures towers[..] == src.towers[..]
      ensures needUpdate[..] == src.needUpdate[..] && needHandle[..] == src.needHandle[..]
      ensures unchanged(src) && unchanged(src.towers) && unchanged(src.needUpdate) && unchanged(src.needHandle)
    {
      mask := src.mask;
      changed := src.changed;
      var i := 0;
      while i < size * size
        invariant 0 <= i <= size * size
        invariant forall k :: 0 <= k < i ==> towers[k] == src.towers[k]
        invariant mask == src.mask && changed == src.changed && streets == old(streets)
      {
        towers[i] := src.towers[i];
        i := i + 1;
      }
      i := 0;
      var sts := streets;
      while i < 4 * size
        invariant 0 <= i <= 4 * size && |sts| == 4 * size
        invariant forall k :: 0 <= k < size * size ==> towers[k] == src.towers[k]
        invariant forall k :: 0 <= k < i ==> needUpdate[k] == src.needUpdate[k] && needHandle[k] == src.needHandle[k]
        invariant forall k :: 0 <= k < i ==> sts[k] == src.streets[k]
        invariant mask == src.mask && changed == src.changed
      {
        needUpdate[i] := src.needUpdate[i];
        needHandle[i] := src.needHandle[i];
        sts := sts[i := src.streets[i]];
        i := i + 1;
      }
      streets := sts;
    }
  }

  /** city_copy with no destination: a fresh grid equal to the source. */
  method Clone(src: City) returns (c: City)
    requires src.Valid()
    ensures fresh(c) && fresh(c.Repr()) && c.Valid()
    ensures c.size == src.size && c.mask == src.mask && c.changed == src.changed && c.streets == src.streets
    ensures c.towers[..] == src.towers[..]
    ensures c.needUpdate[..] == src.needUpdate[..] && c.needHandle[..] == src.needHandle[..]
  {
    c := new City(src.size);
    c.CopyFrom(src);
  }
}
