/**
 * method_slope (src/methods/slope.c): on every line with a clue of at least
 * two, the hills up to the last place the tallest building may stand are
 * scanned, and when they must supply every building still missing from the
 * clue the staircase banding runs on them, or when one building is missing
 * per hill the step down runs on them; both stop at the first place the
 * tallest building may stand.
 */
module SlopeRule {
  import opened Bitmask
  import opened Towers
  import opened Geometry
  import opened Hills
  import opened Streets
  import opened Rules
  import opened Grid
  import opened StaircaseRule
  import opened StepDownRule

  /** Every cell of the grid is well formed. */
  predicate CellsOk(g: seq<Tower>, size: int)
  {
    forall j :: 0 <= j < |g| ==> Ok(g[j], size)
  }

  /**
   * first_highest of method_slope: the first index that may hold the tallest
   * height, or 0 when none may.
   */
  function SlopeFirstOf(cells: seq<Tower>, size: int): (r: int)
    requires 1 <= size <= 8 && 0 < |cells|
    ensures 0 <= r < |cells| && forall j :: 0 <= j < r ==> !MayBeTallest(cells[j], size)
    ensures MayBeTallest(cells[r], size) || (r == 0 && forall j :: 0 <= j < |cells| ==> !MayBeTallest(cells[j], size))
  {
    var r := HighestFirstOf(cells, size);
    if MayBeTallest(cells[r], size) then r else 0
  }

  /**
   * first_highest is find_highest_first's index when some cell may hold the
   * tallest height; when none may, it is 0 where find_highest_first gives the
   * last index.
   */
  lemma SlopeFirstAgrees(cells: seq<Tower>, size: int)
    requires 1 <= size <= 8 && 0 < |cells|
    ensures MayBeTallest(cells[HighestFirstOf(cells, size)], size) ==> SlopeFirstOf(cells, size) == HighestFirstOf(cells, size)
    ensures !MayBeTallest(cells[HighestFirstOf(cells, size)], size) ==>
              SlopeFirstOf(cells, size) == 0 && HighestFirstOf(cells, size) == |cells| - 1
  {
    var f := HighestFirstOf(cells, size);
    if MayBeTallest(cells[f], size) {
      HighestFirstUnique(cells, size, f, SlopeFirstOf(cells, size));
    }
  }

  /** The hills, visible count and vacant count method_slope gathers: the hill scan up to highest_last. */
  function SlopeScan(cells: seq<Tower>, size: int): Scan
    requires 1 <= size <= 8 && |cells| == size
  {
    ScanUpTo(cells, HighestLastOf(cells, size) + 1, size)
  }

  /** The part of method_slope that runs on a line. */
  datatype Branch = Idle | Staircase | OneStep

  /**
   * A clue below two or a line without vacant cells is skipped; when the
   * vacant cells must all be seen the staircase banding runs; when one
   * building is missing per hill the step down runs; otherwise nothing.
   */
  function Choose(clue: int, visible: int, vacant: int, count: int): Branch
  {
    if clue < 2 || vacant == 0 then Idle
    else if vacant == clue - visible then Staircase
    else if clue - visible == count then OneStep
    else Idle
  }

  /** The part of method_slope that runs on a line of cells with clue clue. */
  function SlopeBranch(cells: seq<Tower>, clue: int, size: int): Branch
    requires 1 <= size <= 8 && |cells| == size
  {
    var s := SlopeScan(cells, size);
    Choose(clue, s.visible, s.vacant, |Close(s)|)
  }

  /** The chosen part run on the hills, both parts up to index first. */
  function Sloped(g: seq<Tower>, line: seq<int>, hills: seq<Hill>, branch: Branch, first: int, size: int): (r: seq<Tower>)
    requires 1 <= size <= 8 && |line| == size && Distinct(line, |g|) && AllOk(hills, size)
    ensures |r| == |g|
  {
    match branch
    case Idle => g
    case Staircase => StairPass(g, line, hills, first, size, true, |hills|)
    case OneStep => DownPass(g, line, hills, 1, first, size, |hills|)
  }

  /** Some cell of the line lost a candidate in the chosen part. */
  predicate SlopedAlters(g: seq<Tower>, line: seq<int>, hills: seq<Hill>, branch: Branch, first: int, size: int)
    requires 1 <= size <= 8 && |line| == size && Distinct(line, |g|) && AllOk(hills, size)
  {
    match branch
    case Idle => false
    case Staircase => StairAlters(g, line, hills, first, size, true, |hills|)
    case OneStep => DownAlters(g, line, hills, 1, first, size, |hills|)
  }

  /** The hills method_slope finds on a line of well-formed cells are well formed. */
  lemma LineHills(g: seq<Tower>, line: seq<int>, size: int)
    requires 1 <= size <= 8 && |line| == size && Distinct(line, |g|) && CellsOk(g, size)
    ensures AllOk(Close(SlopeScan(Gather(g, line), size)), size)
  {
    GatheredOk(g, line, size);
    SlopeHills(Gather(g, line), size);
  }

  /** The hills method_slope finds on well-formed cells are well formed. */
  lemma SlopeHills(cells: seq<Tower>, size: int)
    requires 1 <= size <= 8 && |cells| == size && forall i :: 0 <= i < size ==> Ok(cells[i], size)
    ensures AllOk(Close(SlopeScan(cells, size)), size)
  {
    ScanAllOk(cells, HighestLastOf(cells, size) + 1, size);
  }

  lemma GatheredOk(g: seq<Tower>, line: seq<int>, size: int)
    requires 1 <= size <= 8 && |line| == size && Distinct(line, |g|) && CellsOk(g, size)
    ensures forall i :: 0 <= i < size ==> Ok(Gather(g, line)[i], size)
  {}

  /** The grid after method_slope handled one line with clue clue. */
  function SlopeLine(g: seq<Tower>, line: seq<int>, clue: int, size: int): (r: seq<Tower>)
    requires 1 <= size <= 8 && |line| == size && Distinct(line, |g|) && CellsOk(g, size)
    ensures |r| == |g|
  {
    var cells := Gather(g, line);
    LineHills(g, line, size);
    Sloped(g, line, Close(SlopeScan(cells, size)), SlopeBranch(cells, clue, size), SlopeFirstOf(cells, size), size)
  }

  /** Some cell of the line lost a candidate while method_slope handled it. */
  predicate SlopeLineAlters(g: seq<Tower>, line: seq<int>, clue: int, size: int)
    requires 1 <= size <= 8 && |line| == size && Distinct(line, |g|) && CellsOk(g, size)
  {
    var cells := Gather(g, line);
    LineHills(g, line, size);
    SlopedAlters(g, line, Close(SlopeScan(cells, size)), SlopeBranch(cells, clue, size), SlopeFirstOf(cells, size), size)
  }

  /**
   * One line keeps every cell well formed, only removes candidates, and
   * leaves resolved cells and cells off the line alone.
   */
  lemma SlopeLineOk(g: seq<Tower>, line: seq<int>, clue: int, size: int)
    requires 1 <= size <= 8 && |line| == size && Distinct(line, |g|) && CellsOk(g, size)
    ensures forall j :: 0 <= j < |g| ==>
              Ok(SlopeLine(g, line, clue, size)[j], size) && Narrower(SlopeLine(g, line, clue, size)[j], g[j])
    ensures forall j :: 0 <= j < |g| && (g[j].height != 0 || j !in line) ==> SlopeLine(g, line, clue, size)[j] == g[j]
  {
    var cells := Gather(g, line);
    var hills := Close(SlopeScan(cells, size));
    LineHills(g, line, size);
    match SlopeBranch(cells, clue, size)
    case Idle =>
    case Staircase =>
      StairPassOk(g, line, hills, SlopeFirstOf(cells, size), size, true, |hills|);
    case OneStep =>
      DownPassOk(g, line, hills, 1, SlopeFirstOf(cells, size), size, |hills|);
  }

  /** The grid after method_slope handled streets 0..n-1 in turn, each on the cells the earlier ones left. */
  function SlopePass(g: seq<Tower>, streets: seq<Street>, size: int, n: int): (r: seq<Tower>)
    requires 1 <= size <= 8 && AllPlaced(streets, size, |g|) && 0 <= n <= |streets| && CellsOk(g, size)
    ensures |r| == |g| && CellsOk(r, size)
  {
    if n == 0 then g
    else
      var p := SlopePass(g, streets, size, n - 1);
      SlopeLineOk(p, streets[n - 1].cells, streets[n - 1].clue, size);
      SlopeLine(p, streets[n - 1].cells, streets[n - 1].clue, size)
  }

  /** Some cell changed while method_slope handled streets 0..n-1. */
  predicate SlopeAlters(g: seq<Tower>, streets: seq<Street>, size: int, n: int)
    requires 1 <= size <= 8 && AllPlaced(streets, size, |g|) && 0 <= n <= |streets| && CellsOk(g, size)
  {
    n > 0 &&
    (SlopeAlters(g, streets, size, n - 1) ||
     SlopeLineAlters(SlopePass(g, streets, size, n - 1), streets[n - 1].cells, streets[n - 1].clue, size))
  }

  lemma SlopePassNext(g: seq<Tower>, streets: seq<Street>, size: int, n: int)
    requires 1 <= size <= 8 && AllPlaced(streets, size, |g|) && 0 <= n < |streets| && CellsOk(g, size)
    ensures SlopePass(g, streets, size, n + 1) ==
              SlopeLine(SlopePass(g, streets, size, n), streets[n].cells, streets[n].clue, size)
    ensures SlopeAlters(g, streets, size, n + 1) <==>
              SlopeAlters(g, streets, size, n) ||
              SlopeLineAlters(SlopePass(g, streets, size, n), streets[n].cells, streets[n].clue, size)
  {}

  /**
   * The whole pass only removes candidates and leaves resolved cells alone.
   */
  lemma {:induction false} SlopePassOk(g: seq<Tower>, streets: seq<Street>, size: int, n: int)
    requires 1 <= size <= 8 && AllPlaced(streets, size, |g|) && 0 <= n <= |streets| && CellsOk(g, size)
    ensures forall j :: 0 <= j < |g| ==> Narrower(SlopePass(g, streets, size, n)[j], g[j])
    ensures forall j :: 0 <= j < |g| && g[j].height != 0 ==> SlopePass(g, streets, size, n)[j] == g[j]
  {
    if n > 0 {
      SlopePassOk(g, streets, size, n - 1);
      var p := SlopePass(g, streets, size, n - 1);
      var r := SlopePass(g, streets, size, n);
      SlopePassNext(g, streets, size, n - 1);
      SlopeLineOk(p, streets[n - 1].cells, streets[n - 1].clue, size);
      NarrowerTrans(r, p, g);
    }
  }

  /**
   * trace[k] is the grid after method_slope handled the first k streets and
   * alters[k] says whether some cell changed on the way; the quantifier fires
   * only on an explicit SlopePass or SlopeAlters term.
   */
  predicate Traces(trace: seq<seq<Tower>>, alters: seq<bool>, g: seq<Tower>, streets: seq<Street>, size: int)
    requires 1 <= size <= 8 && AllPlaced(streets, size, |g|) && CellsOk(g, size)
  {
    |trace| == |alters| == |streets| + 1 &&
    (forall k {:trigger SlopePass(g, streets, size, k)} :: 0 <= k <= |streets| ==> trace[k] == SlopePass(g, streets, size, k)) &&
    (forall k {:trigger SlopeAlters(g, streets, size, k)} :: 0 <= k <= |streets| ==> alters[k] == SlopeAlters(g, streets, size, k))
  }

  lemma TraceOf(g: seq<Tower>, streets: seq<Street>, size: int) returns (trace: seq<seq<Tower>>, alters: seq<bool>)
    requires 1 <= size <= 8 && AllPlaced(streets, size, |g|) && CellsOk(g, size)
    ensures Traces(trace, alters, g, streets, size)
  {
    trace := seq(|streets| + 1, k requires 0 <= k <= |streets| => SlopePass(g, streets, size, k));
    alters := seq(|streets| + 1, k requires 0 <= k <= |streets| => SlopeAlters(g, streets, size, k));
  }

  /**
   * method_slope over the whole grid: the lines in street order, side by side
   * and position by position.  The grid's `changed` flag is raised when some
   * cell changed; the source raises it at the change itself, which nothing
   * reads in between.
   */
  method Slope(c: City) returns (changed: bool)
    requires c.Valid()
    modifies c, c.towers
    ensures c.Valid() && c.streets == old(c.streets) && c.mask == old(c.mask)
    ensures c.towers[..] == SlopePass(old(c.towers[..]), c.streets, c.size, 4 * c.size)
    ensures changed == SlopeAlters(old(c.towers[..]), c.streets, c.size, 4 * c.size)
    ensures c.changed == (old(c.changed) || changed)
  {
    assert AllPlaced(c.streets, c.size, c.towers.Length);
    assert CellsOk(c.towers[..], c.size);
    ghost var trace, alters;
    changed, trace, alters := SlopeGrid(c, c.streets);
    assert trace[4 * c.size] == SlopePass(old(c.towers[..]), c.streets, c.size, 4 * c.size);
    assert alters[4 * c.size] == SlopeAlters(old(c.towers[..]), c.streets, c.size, 4 * c.size);
    assert CellsOk(c.towers[..], c.size);
    if changed {
      c.changed := true;
    }
  }

  /** The two loops of method_slope, over the sides and over the positions along each. */
  method SlopeGrid(c: City, ghost streets: seq<Street>)
      returns (changed: bool, ghost trace: seq<seq<Tower>>, ghost alters: seq<bool>)
    requires 1 <= c.size <= 8 && c.mask == LowMask(c.size) && c.streets == streets && |streets| == 4 * c.size
    requires AllPlaced(streets, c.size, c.towers.Length) && CellsOk(c.towers[..], c.size)
    modifies c.towers
    ensures CellsOk(old(c.towers[..]), c.size) && Traces(trace, alters, old(c.towers[..]), streets, c.size)
    ensures c.towers[..] == trace[4 * c.size] && changed == alters[4 * c.size]
  {
    ghost var g := c.towers[..];
    trace, alters := TraceOf(g, streets, c.size);
    assert trace[0] == SlopePass(g, streets, c.size, 0) && alters[0] == SlopeAlters(g, streets, c.size, 0);
    changed := false;
    ghost var n := 0;
    var side := 0;
    while side < 4
      invariant 0 <= side <= 4 && n == side * c.size
      invariant c.towers[..] == trace[n]
      invariant changed == alters[n]
    {
      var ch := SlopeSide(c, side, n, g, streets, trace, alters);
      changed := changed || ch;
      side := side + 1;
      n := n + c.size;
    }
  }

  /** The inner loop over the lines of one side; n is the number of its first street. */
  method SlopeSide(c: City, side: int, ghost n: int, ghost g: seq<Tower>, ghost streets: seq<Street>,
                   ghost trace: seq<seq<Tower>>, ghost alters: seq<bool>)
      returns (changed: bool)
    requires 1 <= c.size <= 8 && c.mask == LowMask(c.size) && c.streets == streets && |streets| == 4 * c.size
    requires 0 <= side < 4 && n == side * c.size
    requires AllPlaced(streets, c.size, |g|) && CellsOk(g, c.size)
    requires Traces(trace, alters, g, streets, c.size) && c.towers[..] == trace[n]
    modifies c.towers
    ensures n + c.size <= 4 * c.size
    ensures c.towers[..] == trace[n + c.size]
    ensures alters[n + c.size] <==> alters[n] || changed
  {
    assert n + c.size == (side + 1) * c.size <= 4 * c.size;
    changed := false;
    ghost var m := n;
    var pos := 0;
    while pos < c.size
      invariant 0 <= pos <= c.size && m == n + pos
      invariant c.towers[..] == trace[m]
      invariant alters[m] <==> alters[n] || changed
    {
      var ch := SlopeStreet(c, side, pos, m, g, streets, trace, alters);
      changed := changed || ch;
      pos := pos + 1;
      m := m + 1;
    }
  }

  /**
   * The body of the loops: line (side, pos), the line of street m, whose
   * clue is the street's (city_get_clue) and whose cells are the street's.
   */
  method SlopeStreet(c: City, side: int, pos: int, ghost m: int, ghost g: seq<Tower>, ghost streets: seq<Street>,
                     ghost trace: seq<seq<Tower>>, ghost alters: seq<bool>)
      returns (changed: bool)
    requires 1 <= c.size <= 8 && c.mask == LowMask(c.size) && c.streets == streets && |streets| == 4 * c.size
    requires 0 <= side < 4 && 0 <= pos < c.size
    requires AllPlaced(streets, c.size, |g|) && CellsOk(g, c.size) && Traces(trace, alters, g, streets, c.size)
    requires m == StreetNumber(c.size, side, pos) && c.towers[..] == trace[m]
    modifies c.towers
    ensures c.towers[..] == trace[m + 1]
    ensures alters[m + 1] <==> alters[m] || changed
  {
    assert trace[m] == SlopePass(g, streets, c.size, m) && alters[m] == SlopeAlters(g, streets, c.size, m);
    assert trace[m + 1] == SlopePass(g, streets, c.size, m + 1) && alters[m + 1] == SlopeAlters(g, streets, c.size, m + 1);
    SlopePassNext(g, streets, c.size, m);
    var i := StreetNumber(c.size, side, pos);
    changed := SlopeOn(c.towers, c.streets[i].cells, c.streets[i].clue, c.size, c.mask);
  }

  /**
   * One line of method_slope.  highest_last is found by the same loop as
   * find_highest_last (the mask full ^ (full >> 1) is the tallest height's
   * bit), first_highest by its own loop, and the hills by the same scan as
   * update_hill; then the staircase banding runs with resolved cells
   * skipped, or the step down runs for single-vacancy hills, both up to
   * first_highest.
   */
  method SlopeOn(a: array<Tower>, line: seq<int>, clue: int, size: int, full: Bits) returns (changed: bool)
    requires 1 <= size <= 8 && |line| == size && Distinct(line, a.Length) && full == LowMask(size)
    requires CellsOk(a[..], size)
    modifies a
    ensures a[..] == SlopeLine(old(a[..]), line, clue, size)
    ensures changed == SlopeLineAlters(old(a[..]), line, clue, size)
  {
    ghost var cells := Gather(a[..], line);
    if clue < 2 {
      return false;
    }
    var last := HighestLast(a, line, size);
    HighestLastUnique(cells, size, last, HighestLastOf(cells, size));
    var first := SlopeFirst(a, line, size, full);
    var hills, visible, vacant := HillScan(a, line, last, size);
    LineHills(a[..], line, size);
    if vacant == 0 {
      return false;
    }
    changed := SlopeRun(a, line, hills, Choose(clue, visible, vacant, |hills|), first, size);
  }

  /** The two branches of method_slope after the statistics are gathered. */
  method SlopeRun(a: array<Tower>, line: seq<int>, hills: seq<Hill>, branch: Branch, first: int, size: int)
      returns (changed: bool)
    requires 1 <= size <= 8 && |line| == size && Distinct(line, a.Length) && AllOk(hills, size)
    modifies a
    ensures a[..] == Sloped(old(a[..]), line, hills, branch, first, size)
    ensures changed == SlopedAlters(old(a[..]), line, hills, branch, first, size)
  {
    if branch == Staircase {
      changed := StairHills(a, line, hills, first, size, true);
    } else if branch == OneStep {
      changed := DownHills(a, line, hills, 1, first, size);
    } else {
      changed := false;
    }
  }

  /** The first_highest loop of method_slope. */
  method SlopeFirst(a: array<Tower>, line: seq<int>, size: int, full: Bits) returns (r: int)
    requires 1 <= size <= 8 && |line| == size && Distinct(line, a.Length) && full == LowMask(size)
    ensures r == SlopeFirstOf(Gather(a[..], line), size)
  {
    ghost var cells := Gather(a[..], line);
    TopOfLowMask(size);
    var top := full ^ (full >> 1);
    var i := 0;
    while i < size
      invariant 0 <= i <= size
      invariant forall j :: 0 <= j < i ==> !MayBeTallest(cells[j], size)
    {
      if a[line[i]].options & top != 0 {
        assert MayBeTallest(cells[i], size);
        return i;
      }
      i := i + 1;
    }
    return 0;
  }

  // ---------------------------------------------------------------------------
  // The banding of slope.c:169 and slope.c:205 as written.

  /**
   * The banding at slope.c:169 passes each unresolved vacant cell up to
   * first_highest to tower_and_options, which asserts (tower.c:109) that the
   * band meets the cell's candidates; nothing checks that first.  This
   * states that the assertion holds for every cell hill h bands.
   */
  predicate BandingMeets(cells: seq<Tower>, h: Hill, fh: int, size: int)
    requires HillOk(h, size) && |cells| == size
  {
    forall i :: 0 <= i < size && StairMask(cells, h, fh, size, true, i).Some? ==>
      cells[i].options & StairMask(cells, h, fh, size, true, i).value != 0
  }

  /** As BandingMeets, for the step down of slope.c:205 with one building missing per hill. */
  predicate DownMeets(cells: seq<Tower>, h: Hill, fh: int, size: int)
    requires HillOk(h, size) && |cells| == size
  {
    forall i :: 0 <= i < size && DownMask(cells, h, 1, fh, size, i).Some? ==>
      cells[i].options & DownMask(cells, h, 1, fh, size, i).value != 0
  }

  /**
   * The assertion of tower_and_options fails while the staircase banding
   * handles one of the first n hills, each on the cells the earlier hills left.
   */
  predicate StairMisses(g: seq<Tower>, line: seq<int>, hills: seq<Hill>, fh: int, size: int, n: int)
    requires 1 <= size <= 8 && |line| == size && Distinct(line, |g|) && 0 <= n <= |hills| && AllOk(hills, size)
  {
    n > 0 &&
    (StairMisses(g, line, hills, fh, size, n - 1) ||
     !BandingMeets(Gather(StairPass(g, line, hills, fh, size, true, n - 1), line), hills[n - 1], fh, size))
  }

  /** As StairMisses, for the step down. */
  predicate DownMisses(g: seq<Tower>, line: seq<int>, hills: seq<Hill>, fh: int, size: int, n: int)
    requires 1 <= size <= 8 && |line| == size && Distinct(line, |g|) && 0 <= n <= |hills| && AllOk(hills, size)
  {
    n > 0 &&
    (DownMisses(g, line, hills, fh, size, n - 1) ||
     !DownMeets(Gather(DownPass(g, line, hills, 1, fh, size, n - 1), line), hills[n - 1], fh, size))
  }

  /**
   * One line of method_slope as written: None where tower_and_options's
   * assertion stops the program.  When every band meets its cell, the guard
   * of Narrow holds at every call, so the guarded pass computes what the
   * unguarded calls compute.
   */
  function SlopeLineAsWritten(g: seq<Tower>, line: seq<int>, clue: int, size: int): (r: Option<seq<Tower>>)
    requires 1 <= size <= 8 && |line| == size && Distinct(line, |g|) && CellsOk(g, size)
    ensures r.None? ==> SlopeBranch(Gather(g, line), clue, size) != Idle
    ensures r.Some? ==> r.value == SlopeLine(g, line, clue, size)
  {
    var cells := Gather(g, line);
    LineHills(g, line, size);
    var hills := Close(SlopeScan(cells, size));
    var first := SlopeFirstOf(cells, size);
    match SlopeBranch(cells, clue, size)
    case Idle => Some(g)
    case Staircase =>
      if StairMisses(g, line, hills, first, size, |hills|) then None
      else Some(StairPass(g, line, hills, first, size, true, |hills|))
    case OneStep =>
      if DownMisses(g, line, hills, first, size, |hills|) then None
      else Some(DownPass(g, line, hills, 1, first, size, |hills|))
  }

  /** The line of the counterexample to BandingMeets: candidates {2, 3}, {1, 4}, {1, 3}, {1, 4}. */
  const MissLine: seq<Tower> := [Tower(0, 0x06), Tower(0, 0x09), Tower(0, 0x05), Tower(0, 0x09)]

  /** The one hill method_slope finds on MissLine. */
  const MissHill := Hill(0, 3, 3, 0x0B, 0, 4, 1)

  lemma MissHeights()
    ensures MinHeight(0x06, 4) == 2 && MaxHeight(0x06, 4) == 3
    ensures MinHeight(0x09, 4) == 1 && MaxHeight(0x09, 4) == 4
    ensures MinHeight(0x05, 4) == 1 && MaxHeight(0x05, 4) == 3
  {
    assert Bit(1) == 1 && Bit(2) == 2 && Bit(3) == 4 && Bit(4) == 8;
  }

  /** The hill scan of MissLine, cell by cell. */
  lemma MissScan()
    ensures ScanUpTo(MissLine, 4, 4) == Scan([], Hill(0, 0, 3, 0x0B, 0, 4, 1), 4, 4, 16, 0, 3, false)
  {
    MissHeights();
    assert ScanUpTo(MissLine, 1, 4) == Scan([], Hill(0, 0, 1, 1, 0, 3, 2), 1, 2, 2, 0, 1, false);
    assert ScanUpTo(MissLine, 2, 4) == Scan([], Hill(0, 0, 2, 3, 0, 4, 1), 2, 3, 4, 0, 2, false);
    assert ScanUpTo(MissLine, 3, 4) == Scan([], Hill(0, 0, 2, 3, 0, 4, 1), 3, 3, 8, 0, 2, false);
  }

  /** Where the tallest building may stand on MissLine: first at index 1, last at index 3. */
  lemma MissTallest()
    ensures SlopeFirstOf(MissLine, 4) == 1 && HighestLastOf(MissLine, 4) == 3
  {
    assert Bit(4) == 8;
    assert MayBeTallest(MissLine[1], 4) && MayBeTallest(MissLine[3], 4) && !MayBeTallest(MissLine[0], 4);
    assert IsHighestLast(MissLine, 4, 3);
    HighestLastUnique(MissLine, 4, 3, HighestLastOf(MissLine, 4));
  }

  /**
   * A line of four well-formed cells with clue 3 on which method_slope takes
   * the staircase branch with one hill over the whole line, and the band of
   * its second vacant cell, {2, 3}, misses that cell's candidates {1, 4}.
   */
  lemma BandingCanMiss()
    ensures CellsOk(MissLine, 4) && HillOk(MissHill, 4)
    ensures SlopeFirstOf(MissLine, 4) == 1 && Close(SlopeScan(MissLine, 4)) == [MissHill]
    ensures SlopeBranch(MissLine, 3, 4) == Staircase
    ensures !BandingMeets(MissLine, MissHill, 1, 4)
  {
    MissOk();
    MissTallest();
    MissScan();
    MissBand(MissLine, MissHill);
  }

  /** The cells of MissLine and its hill are well formed. */
  lemma MissOk()
    ensures CellsOk(MissLine, 4) && HillOk(MissHill, 4)
  {
    assert LowMask(4) == 0x0F && PopCount(0x0B, 4) == 3;
    assert forall j :: 0 <= j < 4 ==> Ok(MissLine[j], 4);
  }

  /** The band of the second cell of MissLine is {2, 3}. */
  lemma MissBand(cells: seq<Tower>, h: Hill)
    requires cells == MissLine && h == MissHill
    ensures StairMask(cells, h, 1, 4, true, 1) == Some(0x06) && cells[1].options & 0x06 == 0
  {
    assert PopCount(0x0B, 4) == 3;
  }

  /**
   * On a four-cell grid holding MissLine, method_slope as written stops at
   * tower_and_options's assertion for clue 3, while the guarded pass
   * (SlopeLineOk) keeps every cell well formed.
   */
  lemma SlopeCanAbort(g: seq<Tower>, line: seq<int>, clue: int, size: int)
    requires g == MissLine && line == [0, 1, 2, 3] && clue == 3 && size == 4
    ensures CellsOk(g, size) && Distinct(line, |g|)
    ensures SlopeLineAsWritten(g, line, clue, size).None?
  {
    GatherIdentity(g, line);
    BandingCanMiss();
    LineHills(g, line, size);
    var hills := Close(SlopeScan(g, size));
    assert hills == [MissHill];
    assert StairMisses(g, line, hills, 1, size, 1);
  }

  /** Gathering the cells 0, 1, ... of a grid gives the grid itself. */
  lemma GatherIdentity(g: seq<Tower>, line: seq<int>)
    requires |line| == |g| && forall k :: 0 <= k < |line| ==> line[k] == k
    ensures Distinct(line, |g|) && Gather(g, line) == g
  {}
}
