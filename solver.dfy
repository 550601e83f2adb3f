// The solving driver: city_solve_step runs the rules street by street,
// city_solve repeats it while the grid is valid and incomplete, and
// method_bruteforce guesses a height for the first open cell and solves the
// rest recursively, restoring the grid when the guess fails.

module Solver {
  import opened Bitmask
  import opened Towers
  import opened Geometry
  import opened Hills
  import opened Streets
  import opened Rules
  import opened Grid
  import opened ExcludeRule
  import opened ObviousRule
  import opened StaircaseRule
  import opened StepDownRule
  import opened FirstOfTwoRule
  import opened SlopeRule

  // ---------------------------------------------------------------------------
  // What the driver keeps.

  /** Every cell of r is the same cell of g narrowed. */
  predicate Narrows(r: seq<Tower>, g: seq<Tower>)
  {
    |r| == |g| && forall j :: 0 <= j < |g| ==> Narrower(r[j], g[j])
  }

  lemma NarrowsRefl(g: seq<Tower>)
    ensures Narrows(g, g)
  {}

  lemma NarrowsTrans(r: seq<Tower>, p: seq<Tower>, g: seq<Tower>)
    requires Narrows(r, p) && Narrows(p, g)
    ensures Narrows(r, g)
  {
    NarrowerTrans(r, p, g);
  }

  /**
   * The streets as the driver sees them: 4*size of them, each on its own line
   * of an n-cell grid, with the well-formed hills the rules walk.
   */
  predicate Board(streets: seq<Street>, size: int, n: int)
  {
    1 <= size <= 8 && |streets| == 4 * size && AllPlaced(streets, size, n) &&
    forall i :: 0 <= i < |streets| ==> AllOk(streets[i].hills, size)
  }

  /** The number of raised need_handle flags. */
  function Marked(f: seq<bool>): (n: nat)
    ensures n <= |f|
  {
    if |f| == 0 then 0 else Marked(f[..|f| - 1]) + (if f[|f| - 1] then 1 else 0)
  }

  /** Lowering one flag lowers the count by one if it was raised. */
  lemma {:induction false} MarkedClear(f: seq<bool>, i: int)
    requires 0 <= i < |f|
    ensures Marked(f[i := false]) == Marked(f) - (if f[i] then 1 else 0)
  {
    var n := |f| - 1;
    if i < n {
      assert f[i := false][..n] == f[..n][i := false];
      MarkedClear(f[..n], i);
    } else {
      assert f[i := false][..n] == f[..n];
    }
  }

  // ---------------------------------------------------------------------------
  // One street's rules, each on the grid as a value.

  /** method_exclude on street st: only the top and right streets do anything. */
  function ExcludeStep(g: seq<Tower>, st: Street, size: int): (r: seq<Tower>)
    requires 1 <= size <= 8 && Placed(st, size, |g|)
    ensures |r| == |g|
  {
    if st.side > 1 then g else Applied(g, st.cells, ExcludeMasks(Gather(g, st.cells), size), size, size)
  }

  predicate ExcludeChanges(g: seq<Tower>, st: Street, size: int)
    requires 1 <= size <= 8 && Placed(st, size, |g|)
  {
    st.side <= 1 && Alters(g, st.cells, ExcludeMasks(Gather(g, st.cells), size), size, size)
  }

  /** method_obvious on street st; it never reports a change. */
  function ObviousStep(g: seq<Tower>, st: Street, size: int): (r: seq<Tower>)
    requires 1 <= size <= 8 && Placed(st, size, |g|)
    ensures |r| == |g|
  {
    Applied(g, st.cells, ObviousMasks(Gather(g, st.cells), size), size, size)
  }

  /**
   * Entry j of city_solve_step's handler table run for street i: first of
   * two, staircase, step down and slope, in that order.  First of two and
   * slope work on the whole grid; staircase and step down use the street's
   * own statistics.  Slope is defined on well-formed grids only, which is
   * all the driver ever holds (StageOk).
   */
  function RunRule(g: seq<Tower>, streets: seq<Street>, i: int, size: int, j: int): (r: seq<Tower>)
    requires Board(streets, size, |g|) && 0 <= i < |streets| && 0 <= j < 4
    ensures |r| == |g|
  {
    var st := streets[i];
    if j == 0 then TwoPass(g, streets, size, |streets|)
    else if j == 1 then (if Tight(st) then StairPass(g, st.cells, st.hills, st.highestFirst, size, false, |st.hills|) else g)
    else if j == 2 then (if Steep(st) then DownPass(g, st.cells, st.hills, st.vacant, size, size, |st.hills|) else g)
    else if CellsOk(g, size) then SlopePass(g, streets, size, |streets|)
    else g
  }

  /** Whether entry j of the handler table reports a change on street i. */
  predicate RuleChanges(g: seq<Tower>, streets: seq<Street>, i: int, size: int, j: int)
    requires Board(streets, size, |g|) && 0 <= i < |streets| && 0 <= j < 4
  {
    var st := streets[i];
    if j == 0 then TwoAlters(g, streets, size, |streets|)
    else if j == 1 then Tight(st) && StairAlters(g, st.cells, st.hills, st.highestFirst, size, false, |st.hills|)
    else if j == 2 then Steep(st) && DownAlters(g, st.cells, st.hills, st.vacant, size, size, |st.hills|)
    else CellsOk(g, size) && SlopeAlters(g, streets, size, |streets|)
  }

  /** Exclude and obvious keep the cells well formed and only remove candidates. */
  lemma FrontOk(g: seq<Tower>, st: Street, size: int)
    requires 1 <= size <= 8 && Placed(st, size, |g|) && CellsOk(g, size)
    ensures CellsOk(ExcludeStep(g, st, size), size) && Narrows(ExcludeStep(g, st, size), g)
    ensures CellsOk(ObviousStep(g, st, size), size) && Narrows(ObviousStep(g, st, size), g)
  {
    if st.side <= 1 {
      AppliedOk(g, st.cells, ExcludeMasks(Gather(g, st.cells), size), size);
    }
    AppliedOk(g, st.cells, ObviousMasks(Gather(g, st.cells), size), size);
  }

  /** Each entry of the handler table keeps the cells well formed and only removes candidates. */
  lemma StageOk(g: seq<Tower>, streets: seq<Street>, i: int, size: int, j: int)
    requires Board(streets, size, |g|) && 0 <= i < |streets| && 0 <= j < 4 && CellsOk(g, size)
    ensures CellsOk(RunRule(g, streets, i, size, j), size) && Narrows(RunRule(g, streets, i, size, j), g)
  {
    var st := streets[i];
    if j == 0 {
      TwoPassOk(g, streets, size, |streets|);
    } else if j == 1 {
      StairPassOk(g, st.cells, st.hills, st.highestFirst, size, false, |st.hills|);
    } else if j == 2 {
      DownPassOk(g, st.cells, st.hills, st.vacant, size, size, |st.hills|);
    } else {
      SlopePassOk(g, streets, size, |streets|);
    }
  }

  /**
   * What handling one street produced: the grid, whether the handling
   * reported progress, and whether it raised the grid's changed flag.
   */
  datatype Outcome = Outcome(g: seq<Tower>, progress: bool, raised: bool)

  /**
   * The handler table from entry j on: the first entry that reports a change
   * ends the handling with progress.  Only first of two and slope raise the
   * grid's changed flag.
   */
  function HandlersFrom(g: seq<Tower>, streets: seq<Street>, i: int, size: int, j: int): (r: Outcome)
    requires Board(streets, size, |g|) && 0 <= i < |streets| && 0 <= j <= 4
    ensures |r.g| == |g| && (r.raised ==> r.progress)
    decreases 4 - j
  {
    if j == 4 then Outcome(g, false, false)
    else if RuleChanges(g, streets, i, size, j) then Outcome(RunRule(g, streets, i, size, j), true, j == 0 || j == 3)
    else HandlersFrom(RunRule(g, streets, i, size, j), streets, i, size, j + 1)
  }

  /** The handler table keeps the cells well formed and only removes candidates. */
  lemma {:induction false} HandlersOk(g: seq<Tower>, streets: seq<Street>, i: int, size: int, j: int)
    requires Board(streets, size, |g|) && 0 <= i < |streets| && 0 <= j <= 4 && CellsOk(g, size)
    ensures CellsOk(HandlersFrom(g, streets, i, size, j).g, size) && Narrows(HandlersFrom(g, streets, i, size, j).g, g)
    decreases 4 - j
  {
    if j < 4 {
      var p := RunRule(g, streets, i, size, j);
      StageOk(g, streets, i, size, j);
      if !RuleChanges(g, streets, i, size, j) {
        HandlersOk(p, streets, i, size, j + 1);
        NarrowsTrans(HandlersFrom(p, streets, i, size, j + 1).g, p, g);
      }
    }
  }

  /**
   * The body of city_solve_step's loop for street i: exclude and obvious
   * both run, and progress there ends the step; otherwise the handler table
   * runs.
   */
  function Handle(g: seq<Tower>, streets: seq<Street>, i: int, size: int): (r: Outcome)
    requires Board(streets, size, |g|) && 0 <= i < |streets|
    ensures |r.g| == |g| && (r.raised ==> r.progress)
  {
    var g2 := ObviousStep(ExcludeStep(g, streets[i], size), streets[i], size);
    if ExcludeChanges(g, streets[i], size) then Outcome(g2, true, false)
    else HandlersFrom(g2, streets, i, size, 0)
  }

  /** Handling a street keeps the cells well formed and only removes candidates. */
  lemma HandleOk(g: seq<Tower>, streets: seq<Street>, i: int, size: int)
    requires Board(streets, size, |g|) && 0 <= i < |streets| && CellsOk(g, size)
    ensures CellsOk(Handle(g, streets, i, size).g, size) && Narrows(Handle(g, streets, i, size).g, g)
  {
    var g1 := ExcludeStep(g, streets[i], size);
    var g2 := ObviousStep(g1, streets[i], size);
    FrontOk(g, streets[i], size);
    FrontOk(g1, streets[i], size);
    NarrowsTrans(g2, g1, g);
    HandlersOk(g2, streets, i, size, 0);
    NarrowsTrans(HandlersFrom(g2, streets, i, size, 0).g, g2, g);
  }

  // ---------------------------------------------------------------------------
  // city_solve_step as a value.

  /** Where a solve step leaves the grid, the need_handle flags and the changed flag. */
  datatype Pass = Pass(g: seq<Tower>, flags: seq<bool>, progress: bool, raised: bool)

  /**
   * city_solve_step from street i on: a street whose flag is down is
   * skipped; otherwise its flag is lowered and it is handled, and the step
   * ends there if that made progress.
   */
  function StepFrom(g: seq<Tower>, flags: seq<bool>, streets: seq<Street>, size: int, i: int): (r: Pass)
    requires Board(streets, size, |g|) && |flags| == |streets| && 0 <= i <= |streets|
    ensures |r.g| == |g| && |r.flags| == |flags|
    decreases |streets| - i, 1
  {
    if i == |streets| then Pass(g, flags, false, false)
    else if !flags[i] then StepFrom(g, flags, streets, size, i + 1)
    else Continue(Handle(g, streets, i, size), flags, streets, size, i)
  }

  /** The rest of the step once street i, whose flag was up, was handled with outcome o. */
  function Continue(o: Outcome, flags: seq<bool>, streets: seq<Street>, size: int, i: int): (r: Pass)
    requires Board(streets, size, |o.g|) && |flags| == |streets| && 0 <= i < |streets|
    ensures |r.g| == |o.g| && |r.flags| == |flags|
    decreases |streets| - i, 0
  {
    if o.progress then Pass(o.g, flags[i := false], true, o.raised)
    else StepFrom(o.g, flags[i := false], streets, size, i + 1)
  }

  /** Past the last street a step changes nothing. */
  lemma StepDone(g: seq<Tower>, flags: seq<bool>, streets: seq<Street>, size: int)
    requires Board(streets, size, |g|) && |flags| == |streets|
    ensures StepFrom(g, flags, streets, size, |streets|) == Pass(g, flags, false, false)
  {}

  /**
   * The flags a step from street i leaves: it only lowers flags, and only
   * from street i on; a step with progress lowers at least one of them, and
   * a step without progress leaves every flag from i on down.  The changed
   * flag is raised only by a step with progress.
   */
  predicate Lowered(r: Pass, flags: seq<bool>, i: int)
  {
    |r.flags| == |flags| &&
    (forall k :: 0 <= k < |flags| && r.flags[k] ==> flags[k]) &&
    (forall k :: 0 <= k < i && k < |flags| ==> r.flags[k] == flags[k]) &&
    (!r.progress ==> forall k :: 0 <= i <= k < |flags| ==> !r.flags[k]) &&
    Marked(r.flags) <= Marked(flags) &&
    (r.progress ==> Marked(r.flags) < Marked(flags)) &&
    (r.raised ==> r.progress)
  }

  /** Skipping a street whose flag is down. */
  lemma LoweredSkip(r: Pass, flags: seq<bool>, i: int)
    requires 0 <= i < |flags| && !flags[i] && Lowered(r, flags, i + 1)
    ensures Lowered(r, flags, i)
  {}

  /** Lowering the flag of street i and stopping there with progress. */
  lemma LoweredStop(r: Pass, flags: seq<bool>, i: int)
    requires 0 <= i < |flags| && flags[i] && r.flags == flags[i := false] && r.progress
    ensures Lowered(r, flags, i)
  {
    MarkedClear(flags, i);
  }

  /** Lowering the flag of street i and going on to the next street. */
  lemma LoweredPass(r: Pass, flags: seq<bool>, i: int)
    requires 0 <= i < |flags| && flags[i] && Lowered(r, flags[i := false], i + 1)
    ensures Lowered(r, flags, i)
  {
    MarkedClear(flags, i);
  }

  /** Every step keeps Lowered. */
  lemma {:induction false} StepFlags(g: seq<Tower>, flags: seq<bool>, streets: seq<Street>, size: int, i: int)
    requires Board(streets, size, |g|) && |flags| == |streets| && 0 <= i <= |streets|
    ensures Lowered(StepFrom(g, flags, streets, size, i), flags, i)
    decreases |streets| - i, 1
  {
    if i == |streets| {
      assert StepFrom(g, flags, streets, size, i) == Pass(g, flags, false, false);
    } else if !flags[i] {
      assert StepFrom(g, flags, streets, size, i) == StepFrom(g, flags, streets, size, i + 1);
      StepFlags(g, flags, streets, size, i + 1);
      LoweredSkip(StepFrom(g, flags, streets, size, i + 1), flags, i);
    } else {
      var o := Handle(g, streets, i, size);
      assert StepFrom(g, flags, streets, size, i) == Continue(o, flags, streets, size, i);
      ContinueFlags(o, flags, streets, size, i);
    }
  }

  lemma {:induction false} ContinueFlags(o: Outcome, flags: seq<bool>, streets: seq<Street>, size: int, i: int)
    requires Board(streets, size, |o.g|) && |flags| == |streets| && 0 <= i < |streets|
    requires flags[i] && (o.raised ==> o.progress)
    ensures Lowered(Continue(o, flags, streets, size, i), flags, i)
    decreases |streets| - i, 0
  {
    var r := Continue(o, flags, streets, size, i);
    if o.progress {
      LoweredStop(r, flags, i);
    } else {
      StepFlags(o.g, flags[i := false], streets, size, i + 1);
      LoweredPass(r, flags, i);
    }
  }

  /** A step keeps the cells well formed and only removes candidates. */
  lemma {:induction false} StepOk(g: seq<Tower>, flags: seq<bool>, streets: seq<Street>, size: int, i: int)
    requires Board(streets, size, |g|) && |flags| == |streets| && 0 <= i <= |streets| && CellsOk(g, size)
    ensures CellsOk(StepFrom(g, flags, streets, size, i).g, size) && Narrows(StepFrom(g, flags, streets, size, i).g, g)
    decreases |streets| - i, 1
  {
    if i < |streets| {
      if !flags[i] {
        StepOk(g, flags, streets, size, i + 1);
      } else {
        HandleOk(g, streets, i, size);
        ContinueOk(Handle(g, streets, i, size), flags, streets, size, i);
        NarrowsTrans(StepFrom(g, flags, streets, size, i).g, Handle(g, streets, i, size).g, g);
      }
    }
  }

  lemma {:induction false} ContinueOk(o: Outcome, flags: seq<bool>, streets: seq<Street>, size: int, i: int)
    requires Board(streets, size, |o.g|) && |flags| == |streets| && 0 <= i < |streets| && CellsOk(o.g, size)
    ensures CellsOk(Continue(o, flags, streets, size, i).g, size) && Narrows(Continue(o, flags, streets, size, i).g, o.g)
    decreases |streets| - i, 0
  {
    if !o.progress {
      StepOk(o.g, flags[i := false], streets, size, i + 1);
    }
  }

  // ---------------------------------------------------------------------------
  // The driver on the grid.

  /** The grid's states city_solve tells apart. */
  datatype State = Invalid | Pending | Solved

  /** The state of the grid: invalid, solved, or valid and still open. */
  method GetState(c: City) returns (s: State)
    requires c.Valid()
    ensures s == Invalid <==> !c.AllViews()
    ensures s == Solved <==> c.AllViews() && c.Complete()
  {
    var valid := c.IsValid();
    if !valid {
      return Invalid;
    }
    var solved := c.IsSolved();
    s := if solved then Solved else Pending;
  }

  /** The cells of a well-formed grid, as a sequence. */
  lemma CellsOfCity(c: City, g: seq<Tower>)
    requires c.Valid() && g == c.towers[..]
    ensures CellsOk(g, c.size)
  {}

  /** With the layout in place, well-formed cells make a well-formed grid. */
  lemma CityOfCells(c: City)
    requires c.Placement() && CellsOk(c.towers[..], c.size)
    ensures c.Valid()
  {
    forall k | 0 <= k < c.size * c.size
      ensures Ok(c.towers[k], c.size)
    {
      assert c.towers[k] == c.towers[..][k];
    }
  }

  /**
   * The body of city_solve_step's loop for street i, on the grid: exclude
   * and obvious, then the handler table.
   */
  method HandleStreet(c: City, i: int) returns (progress: bool)
    requires c.Valid() && Board(c.streets, c.size, c.size * c.size) && 0 <= i < 4 * c.size
    modifies c, c.towers
    ensures c.Valid() && c.streets == old(c.streets) && c.mask == old(c.mask)
    ensures c.towers[..] == Handle(old(c.towers[..]), c.streets, i, c.size).g
    ensures progress == Handle(old(c.towers[..]), c.streets, i, c.size).progress
    ensures c.changed == (old(c.changed) || Handle(old(c.towers[..]), c.streets, i, c.size).raised)
  {
    var st := c.streets[i];
    ghost var g := c.towers[..];
    CellsOfCity(c, g);
    FrontOk(g, st, c.size);
    var excluded := Exclude(c.towers, st, c.size);
    FrontOk(c.towers[..], st, c.size);
    var obvious := Obvious(c.towers, st, c.size);
    CityOfCells(c);
    if excluded || obvious {
      return true;
    }
    progress := RunHandlers(c, i);
  }

  /** The loop over city_solve_step's handler table for street i. */
  method RunHandlers(c: City, i: int) returns (progress: bool)
    requires c.Valid() && Board(c.streets, c.size, c.size * c.size) && 0 <= i < 4 * c.size
    modifies c, c.towers
    ensures c.Valid() && c.streets == old(c.streets) && c.mask == old(c.mask)
    ensures c.towers[..] == HandlersFrom(old(c.towers[..]), c.streets, i, c.size, 0).g
    ensures progress == HandlersFrom(old(c.towers[..]), c.streets, i, c.size, 0).progress
    ensures c.changed == (old(c.changed) || HandlersFrom(old(c.towers[..]), c.streets, i, c.size, 0).raised)
  {
    ghost var target := HandlersFrom(c.towers[..], c.streets, i, c.size, 0);
    var j := 0;
    while j < 4
      invariant 0 <= j <= 4
      invariant c.Valid() && c.streets == old(c.streets) && c.mask == old(c.mask) && c.changed == old(c.changed)
      invariant HandlersFrom(c.towers[..], c.streets, i, c.size, j) == target
    {
      progress := HandlerTick(c, i, j, target);
      if progress {
        return;
      }
      j := j + 1;
    }
    progress := false;
  }

  /** One turn of the handler loop at entry j, where the rest of the table is to end in target. */
  method HandlerTick(c: City, i: int, j: int, ghost target: Outcome) returns (done: bool)
    requires c.Valid() && Board(c.streets, c.size, c.size * c.size) && 0 <= i < 4 * c.size && 0 <= j < 4
    requires HandlersFrom(c.towers[..], c.streets, i, c.size, j) == target
    modifies c, c.towers
    ensures c.Valid() && c.streets == old(c.streets) && c.mask == old(c.mask)
    ensures done ==> target.progress && c.towers[..] == target.g && c.changed == (old(c.changed) || target.raised)
    ensures !done ==> c.changed == old(c.changed) && HandlersFrom(c.towers[..], c.streets, i, c.size, j + 1) == target
  {
    done := RunHandler(c, i, j);
  }

  /** Entry j of the handler table on street i; first of two and slope raise the changed flag. */
  method RunHandler(c: City, i: int, j: int) returns (changed: bool)
    requires c.Valid() && Board(c.streets, c.size, c.size * c.size) && 0 <= i < 4 * c.size && 0 <= j < 4
    modifies c, c.towers
    ensures c.Valid() && c.streets == old(c.streets) && c.mask == old(c.mask)
    ensures c.towers[..] == RunRule(old(c.towers[..]), c.streets, i, c.size, j)
    ensures changed == RuleChanges(old(c.towers[..]), c.streets, i, c.size, j)
    ensures c.changed == (old(c.changed) || (changed && (j == 0 || j == 3)))
  {
    ghost var g := c.towers[..];
    CellsOfCity(c, g);
    StageOk(g, c.streets, i, c.size, j);
    if j == 0 {
      changed := FirstOfTwo(c);
      CityOfCells(c);
    } else if j == 1 {
      changed := StaircaseRule.Staircase(c.towers, c.streets[i], c.size);
    } else if j == 2 {
      changed := StepDown(c.towers, c.streets[i], c.size);
    } else {
      changed := Slope(c);
    }
  }

  /**
   * The grid holds where a step ending in r leaves it: its cells, its
   * need_handle flags, and the changed flag, which was changed0 before.
   */
  ghost predicate Ends(c: City, r: Pass, changed0: bool)
    reads c, c.towers, c.needHandle
  {
    c.towers[..] == r.g && c.needHandle[..] == r.flags && c.changed == (changed0 || r.raised)
  }

  /**
   * The state of city_solve_step's loop before street i: the shape, the
   * streets, the mask and the changed flag are as they were, and the rest of
   * the step is to end in target.
   */
  ghost predicate Stepping(c: City, streets: seq<Street>, mask: Bits, changed0: bool, target: Pass, i: int)
    reads c, c.towers, c.needHandle
  {
    c.Valid() && c.streets == streets && Board(streets, c.size, c.size * c.size) && c.mask == mask &&
    c.changed == changed0 && 0 <= i <= 4 * c.size && StepFrom(c.towers[..], c.needHandle[..], streets, c.size, i) == target
  }

  /** One turn of city_solve_step's loop at street i0; i is the next street. */
  method StepTick(c: City, i0: int, ghost streets: seq<Street>, ghost mask: Bits, ghost changed0: bool,
                  ghost target: Pass) returns (done: bool, i: int)
    requires Stepping(c, streets, mask, changed0, target, i0) && i0 < 4 * c.size
    modifies c, c.towers, c.needHandle
    ensures done ==> c.Valid() && c.streets == streets && c.mask == mask && target.progress && Ends(c, target, changed0)
    ensures !done ==> Stepping(c, streets, mask, changed0, target, i) && i == i0 + 1
  {
    assert StepFrom(c.towers[..], c.needHandle[..], c.streets, c.size, i0) == target;
    i := i0 + 1;
    if !c.needHandle[i0] {
      return false, i;
    }
    c.needHandle[i0] := false;
    done := HandleStreet(c, i0);
  }

  /**
   * city_solve_step: the grid, the flags and the changed flag end where
   * StepFrom says, and the result is whether some street made progress.
   */
  method SolveStep(c: City) returns (progress: bool)
    requires c.Valid() && Board(c.streets, c.size, c.size * c.size)
    modifies c, c.towers, c.needHandle
    ensures c.Valid() && c.streets == old(c.streets) && c.mask == old(c.mask)
    ensures Ends(c, StepFrom(old(c.towers[..]), old(c.needHandle[..]), c.streets, c.size, 0), old(c.changed))
    ensures progress == StepFrom(old(c.towers[..]), old(c.needHandle[..]), c.streets, c.size, 0).progress
  {
    ghost var target := StepFrom(c.towers[..], c.needHandle[..], c.streets, c.size, 0);
    ghost var streets, mask, changed0 := c.streets, c.mask, c.changed;
    var i := 0;
    while i < 4 * c.size
      invariant Stepping(c, streets, mask, changed0, target, i)
      decreases 4 * c.size - i
    {
      var done;
      done, i := StepTick(c, i, streets, mask, changed0, target);
      if done {
        return true;
      }
    }
    StepDone(c.towers[..], c.needHandle[..], c.streets, c.size);
    progress := false;
  }

  /**
   * city_solve: while the grid is valid and open, take a solve step; a step
   * without progress hands the grid to method_bruteforce, whose verdict is
   * the result.  A true result leaves a solved grid narrowed from the one
   * given.  The recursion through method_bruteforce ends because each guess
   * resolves one more cell.
   */
  method Solve(c: City) returns (ok: bool)
    requires c.Valid() && Board(c.streets, c.size, c.size * c.size)
    modifies c, c.towers, c.needUpdate, c.needHandle
    ensures c.Valid() && c.streets == old(c.streets)
    ensures Narrows(c.towers[..], old(c.towers[..]))
    ensures ok ==> c.AllViews() && c.Complete()
    decreases Unresolved(c.towers[..]), 4
  {
    ghost var g0 := c.towers[..];
    var state := GetState(c);
    while state == Pending
      invariant c.Valid() && c.streets == old(c.streets) && Narrows(c.towers[..], g0)
      invariant state == Solved ==> c.AllViews() && c.Complete()
      decreases Marked(c.needHandle[..])
    {
      ghost var before, flags := c.towers[..], c.needHandle[..];
      CellsOfCity(c, before);
      var progress := SolveStep(c);
      StepFlags(before, flags, c.streets, c.size, 0);
      StepOk(before, flags, c.streets, c.size, 0);
      NarrowsTrans(c.towers[..], before, g0);
      if !progress {
        UnresolvedNarrower(c.towers[..], g0);
        ghost var entry := c.towers[..];
        ok := Bruteforce(c);
        NarrowsTrans(c.towers[..], entry, g0);
        return;
      }
      state := GetState(c);
    }
    ok := state == Solved;
  }

  /**
   * The cell method_bruteforce guesses: the first unresolved one, columns
   * left to right and each column top to bottom; none when every cell is
   * resolved.
   */
  method FirstOpen(c: City) returns (found: bool, x: int, y: int, k: int)
    requires c.Shape()
    ensures found ==> 0 <= x < c.size && 0 <= y < c.size && k == CellOf(c.size, TOP, x, y) &&
                      0 <= k < c.towers.Length && c.towers[k].height == 0
    ensures found ==> forall x', y' :: 0 <= x' < c.size && 0 <= y' < c.size && (x' < x || (x' == x && y' < y)) ==>
                        c.towers[CellOf(c.size, TOP, x', y')].height != 0
    ensures !found ==> c.Complete()
  {
    x := 0;
    while x < c.size
      invariant 0 <= x <= c.size
      invariant forall x', y' :: 0 <= x' < x && 0 <= y' < c.size ==> c.towers[CellOf(c.size, TOP, x', y')].height != 0
    {
      found, y, k := OpenInColumn(c, x);
      if found {
        return;
      }
      x := x + 1;
    }
    c.ColumnsComplete();
    found, y, k := false, 0, 0;
  }

  /** The inner loop of method_bruteforce's search: column x, top to bottom. */
  method OpenInColumn(c: City, x: int) returns (found: bool, y: int, k: int)
    requires c.Shape() && 0 <= x < c.size
    ensures found ==> 0 <= y < c.size && k == CellOf(c.size, TOP, x, y) &&
                      0 <= k < c.towers.Length && c.towers[k].height == 0
    ensures forall y' :: 0 <= y' < c.size && (!found || y' < y) ==> c.towers[CellOf(c.size, TOP, x, y')].height != 0
  {
    y := 0;
    while y < c.size
      invariant 0 <= y <= c.size
      invariant forall y' :: 0 <= y' < y ==> c.towers[CellOf(c.size, TOP, x, y')].height != 0
    {
      k := c.GetTower(TOP, x, y);
      if c.towers[k].height == 0 {
        return true, y, k;
      }
      y := y + 1;
    }
    found, k := false, 0;
  }

  /**
   * method_bruteforce: with every cell resolved it gives up at once.
   * Otherwise it keeps a copy of the grid and tries on the first open cell
   * each candidate height from size down to 1, solving the rest
   * recursively; a failed try restores the copy.  A true result leaves a
   * solved grid narrowed from the one given; a false one leaves the grid,
   * the flags and the changed flag as they were.
   */
  method Bruteforce(c: City) returns (ok: bool)
    requires c.Valid() && Board(c.streets, c.size, c.size * c.size)
    modifies c, c.towers, c.needUpdate, c.needHandle
    ensures c.Valid() && c.streets == old(c.streets)
    ensures Narrows(c.towers[..], old(c.towers[..]))
    ensures ok ==> c.AllViews() && c.Complete()
    ensures !ok ==> c.towers[..] == old(c.towers[..]) && c.needUpdate[..] == old(c.needUpdate[..]) &&
                    c.needHandle[..] == old(c.needHandle[..]) && c.changed == old(c.changed) && c.mask == old(c.mask)
    decreases Unresolved(c.towers[..]), 3
  {
    NarrowsRefl(c.towers[..]);
    var found, x, y, k := FirstOpen(c);
    if !found {
      return false;
    }
    var backup := Clone(c);
    ghost var tried, h;
    ok, tried, h := TryHeights(c, backup, k, c.towers[k].options);
  }

  /**
   * The candidates of o above height i, tallest first: the heights
   * method_bruteforce's loop from size down to i + 1 tries.
   */
  function Tried(o: Bits, size: int, i: int): (r: seq<int>)
    requires 0 <= i <= size
    decreases size - i
  {
    if i == size then [] else Tried(o, size, i + 1) + (if Has(o, i + 1) then [i + 1] else [])
  }

  /** Tried lists exactly the candidates of o above i, each once, in descending order. */
  lemma {:induction false} TriedMeaning(o: Bits, size: int, i: int)
    requires 0 <= i <= size
    ensures forall h :: h in Tried(o, size, i) <==> i < h <= size && Has(o, h)
    ensures forall a, b :: 0 <= a < b < |Tried(o, size, i)| ==> Tried(o, size, i)[a] > Tried(o, size, i)[b]
    decreases size - i
  {
    if i < size {
      TriedMeaning(o, size, i + 1);
      var r, r' := Tried(o, size, i + 1), Tried(o, size, i);
      forall a, b | 0 <= a < b < |r'|
        ensures r'[a] > r'[b]
      {
        if b == |r| {
          assert r'[a] == r[a] && r[a] in r;
        }
      }
    }
  }

  /** One more height of method_bruteforce's loop, whose bit is bit. */
  lemma TriedNext(o: Bits, size: int, i: int, bit: Bits)
    requires 1 <= i <= size <= 8 && bit == Bit(i)
    ensures o & bit != 0 ==> Tried(o, size, i - 1) == Tried(o, size, i) + [i]
    ensures o & bit == 0 ==> Tried(o, size, i - 1) == Tried(o, size, i)
  {
  }

  /**
   * The loop of method_bruteforce over the heights size down to 1, on open
   * cell k whose candidates are o.  tried records the heights handed to a
   * guess: on failure every candidate of the cell, tallest first; on success
   * the candidates above the height the cell ends with, then that height.
   */
  method TryHeights(c: City, backup: City, k: int, ghost o: Bits) returns (ok: bool, ghost tried: seq<int>, ghost h: int)
    requires c.Valid() && Board(c.streets, c.size, c.size * c.size) && Copy(backup, c)
    requires 0 <= k < c.size * c.size && c.towers[k].height == 0 && o == c.towers[k].options
    modifies c, c.towers, c.needUpdate, c.needHandle
    ensures c.Valid() && c.streets == old(c.streets)
    ensures ok ==> c.AllViews() && c.Complete() && Narrows(c.towers[..], old(c.towers[..]))
    ensures ok ==> 1 <= h <= c.size && c.towers[k].height == h && tried == Tried(o, c.size, h - 1) &&
                   |tried| > 0 && tried[|tried| - 1] == h
    ensures !ok ==> tried == Tried(o, c.size, 0)
    ensures !ok ==> c.towers[..] == old(c.towers[..]) && c.needUpdate[..] == old(c.needUpdate[..]) &&
                    c.needHandle[..] == old(c.needHandle[..]) && c.changed == old(c.changed) && c.mask == old(c.mask)
    decreases Unresolved(c.towers[..]), 2
  {
    ghost var g, streets := c.towers[..], c.streets;
    tried, h := [], 0;
    BitIsShift(c.size);
    var bit: Bits := 1 << (c.size - 1);
    var i := c.size;
    while i > 0
      invariant Trying(c, backup, g, streets, k, o, tried, i, bit)
      decreases i
    {
      ok, tried, h, i, bit := TryHeight(c, backup, g, streets, k, o, tried, i, bit);
      if ok {
        return;
      }
    }
    ok := false;
  }

  /**
   * The state of method_bruteforce's loop before height i, whose bit is bit:
   * the grid holds g again, backup still copies it, and tried holds the
   * candidates above i.
   */
  ghost predicate Trying(c: City, backup: City, g: seq<Tower>, streets: seq<Street>, k: int, o: Bits,
                         tried: seq<int>, i: int, bit: Bits)
    reads c, c.towers, c.needUpdate, c.needHandle, backup, backup.towers, backup.needUpdate, backup.needHandle
  {
    c.Valid() && c.streets == streets && Board(streets, c.size, c.size * c.size) && Copy(backup, c) &&
    0 <= k < c.size * c.size && c.towers[..] == g && g[k].height == 0 && g[k].options == o &&
    0 <= i <= c.size && (0 < i ==> bit == Bit(i)) && tried == Tried(o, c.size, i)
  }

  /**
   * One height of method_bruteforce's loop: height i0 is guessed when it is
   * still a candidate of cell k, and the loop moves to the next lower height.
   */
  method TryHeight(c: City, backup: City, ghost g: seq<Tower>, ghost streets: seq<Street>, k: int, ghost o: Bits,
                   ghost tried0: seq<int>, i0: int, bit0: Bits)
    returns (ok: bool, ghost tried: seq<int>, ghost h: int, i: int, bit: Bits)
    requires Trying(c, backup, g, streets, k, o, tried0, i0, bit0) && i0 > 0
    modifies c, c.towers, c.needUpdate, c.needHandle
    ensures !ok ==> Trying(c, backup, g, streets, k, o, tried, i, bit) && i == i0 - 1
    ensures ok ==> c.Valid() && c.streets == streets && c.AllViews() && c.Complete() && Narrows(c.towers[..], g)
    ensures ok ==> 1 <= h <= c.size && c.towers[k].height == h && tried == Tried(o, c.size, h - 1) &&
                   |tried| > 0 && tried[|tried| - 1] == h
    decreases Unresolved(c.towers[..]), 1
  {
    assert c.towers[k] == g[k];
    TriedNext(o, c.size, i0, bit0);
    ShiftRightBit(i0);
    tried, h, i, bit := tried0, i0, i0 - 1, bit0 >> 1;
    ok := false;
    if HasFloors(c.towers[k], bit0) {
      tried := tried + [i0];
      ok := Guess(c, backup, k, i0);
    }
  }

  /** backup is a separate grid holding everything c holds. */
  ghost predicate Copy(backup: City, c: City)
    reads backup, backup.towers, backup.needUpdate, backup.needHandle, c, c.towers, c.needUpdate, c.needHandle
  {
    backup != c && backup.Shape() && c.Shape() && backup.size == c.size && backup.Repr() !! c.Repr() &&
    backup.towers[..] == c.towers[..] && backup.streets == c.streets && backup.mask == c.mask &&
    backup.changed == c.changed && backup.needUpdate[..] == c.needUpdate[..] && backup.needHandle[..] == c.needHandle[..]
  }

  /**
   * One try of method_bruteforce: the open cell k is resolved to its
   * candidate h and the rest is solved; a failed try restores the grid from
   * backup.
   */
  method Guess(c: City, backup: City, k: int, h: int) returns (ok: bool)
    requires c.Valid() && Board(c.streets, c.size, c.size * c.size) && Copy(backup, c)
    requires 0 <= k < c.size * c.size && c.towers[k].height == 0 && 1 <= h <= c.size && Has(c.towers[k].options, h)
    modifies c, c.towers, c.needUpdate, c.needHandle
    ensures c.Valid() && c.streets == old(c.streets)
    ensures ok ==> c.AllViews() && c.Complete() && Narrows(c.towers[..], old(c.towers[..])) && c.towers[k].height == h
    ensures !ok ==> c.towers[..] == old(c.towers[..]) && c.needUpdate[..] == old(c.needUpdate[..]) &&
                    c.needHandle[..] == old(c.needHandle[..]) && c.changed == old(c.changed) && c.mask == old(c.mask)
    ensures !ok ==> Copy(backup, c)
    decreases Unresolved(c.towers[..]), 0
  {
    ghost var g0 := c.towers[..];
    SetHeightNarrows(g0[k], h, c.size);
    ResolvedOk(h, c.size);
    var _ := SetHeight(c.towers, k, h, c.size);
    assert g0[k].height == 0 && c.towers[..][k].height != 0;
    UnresolvedNarrower(c.towers[..], g0);
    ghost var guessed := c.towers[..];
    ok := Solve(c);
    if ok {
      NarrowsTrans(c.towers[..], guessed, g0);
      return;
    }
    c.CopyFrom(backup);
  }
}
