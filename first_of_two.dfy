/**
 * method_first_of_two (src/methods/first_of_two.c): on a line with clue 2
 * whose first cell is unresolved, the tallest building is the second one
 * seen, so every cell before it stays below the first cell's tallest
 * candidate, and the first cell that could hold the tallest building is
 * either that building or below the first cell too.
 */
module FirstOfTwoRule {
  import opened Bitmask
  import opened Towers
  import opened Geometry
  import opened Streets
  import opened Rules
  import opened Grid

  /** The heights below limit: the rule's mask. */
  function Below(limit: int): Bits
    requires 0 <= limit <= 8
  {
    if limit == 0 then 0 else LowMask(limit - 1)
  }

  /** A cell that ends the scan: resolved taller than limit, or unresolved and able to hold the tallest building. */
  predicate Halts(t: Tower, limit: int, size: int)
    requires 1 <= size <= 8
  {
    t.height > limit || (t.height == 0 && Has(t.options, size))
  }

  /** Where a scan of cells from i on stops: the first cell that ends it, or size when none does. */
  function Stop(cells: seq<Tower>, limit: int, size: int, i: int): (r: int)
    requires 1 <= size <= 8 && |cells| == size && 1 <= i <= size
    ensures i <= r <= size
    ensures r < size ==> Halts(cells[r], limit, size)
    ensures forall k :: i <= k < r ==> !Halts(cells[k], limit, size)
    decreases size - i
  {
    if i == size || Halts(cells[i], limit, size) then i else Stop(cells, limit, size, i + 1)
  }

  /**
   * The mask the rule gives cell i of a line with clue clue: none off a
   * clue-2 line with an unresolved first cell, for the first cell, for a
   * resolved cell and past the stop; the heights below the first cell's
   * tallest candidate before the stop; those and the tallest building at it.
   */
  function TwoMask(cells: seq<Tower>, clue: int, size: int, i: int): Option<Bits>
    requires 1 <= size <= 8 && |cells| == size && 0 <= i < size
  {
    if clue != 2 || cells[0].height != 0 || i == 0 then None
    else
      MaxAtMost(cells[0].options, size);
      var limit := MaxHeight(cells[0].options, size);
      var stop := Stop(cells, limit, size, 1);
      if i > stop || cells[i].height != 0 then None
      else if i < stop then Some(Below(limit))
      else Some(Bit(size) | Below(limit))
  }

  function TwoMasks(cells: seq<Tower>, clue: int, size: int): (masks: seq<Option<Bits>>)
    requires 1 <= size <= 8 && |cells| == size
    ensures |masks| == size
  {
    seq(size, i requires 0 <= i < size => TwoMask(cells, clue, size, i))
  }

  /** masks are the rule's masks for a line; the quantifier fires only on an explicit TwoMask term. */
  predicate TwoMasksAre(masks: seq<Option<Bits>>, cells: seq<Tower>, clue: int, size: int)
    requires 1 <= size <= 8 && |cells| == size
  {
    |masks| == size &&
    forall i {:trigger TwoMask(cells, clue, size, i)} :: 0 <= i < size ==> masks[i] == TwoMask(cells, clue, size, i)
  }

  lemma TwoMasksHold(cells: seq<Tower>, clue: int, size: int)
    requires 1 <= size <= 8 && |cells| == size
    ensures TwoMasksAre(TwoMasks(cells, clue, size), cells, clue, size)
  {}

  /** The grid after the rule ran over streets 0..n-1 in turn, each on the cells the earlier ones left. */
  function TwoPass(g: seq<Tower>, streets: seq<Street>, size: int, n: int): (r: seq<Tower>)
    requires 1 <= size <= 8 && AllPlaced(streets, size, |g|) && 0 <= n <= |streets|
    ensures |r| == |g|
  {
    if n == 0 then g
    else
      var p := TwoPass(g, streets, size, n - 1);
      var line := streets[n - 1].cells;
      Applied(p, line, TwoMasks(Gather(p, line), streets[n - 1].clue, size), size, size)
  }

  /** Some cell changed while the rule ran over streets 0..n-1. */
  predicate TwoAlters(g: seq<Tower>, streets: seq<Street>, size: int, n: int)
    requires 1 <= size <= 8 && AllPlaced(streets, size, |g|) && 0 <= n <= |streets|
  {
    n > 0 &&
    (TwoAlters(g, streets, size, n - 1) ||
     var p := TwoPass(g, streets, size, n - 1);
     var line := streets[n - 1].cells;
     Alters(p, line, TwoMasks(Gather(p, line), streets[n - 1].clue, size), size, size))
  }

  lemma TwoPassNext(g: seq<Tower>, streets: seq<Street>, size: int, n: int)
    requires 1 <= size <= 8 && AllPlaced(streets, size, |g|) && 0 <= n < |streets|
    ensures TwoPass(g, streets, size, n + 1) ==
              Applied(TwoPass(g, streets, size, n), streets[n].cells,
                      TwoMasks(Gather(TwoPass(g, streets, size, n), streets[n].cells), streets[n].clue, size),
                      size, size)
    ensures TwoAlters(g, streets, size, n + 1) <==>
              TwoAlters(g, streets, size, n) ||
              Alters(TwoPass(g, streets, size, n), streets[n].cells,
                     TwoMasks(Gather(TwoPass(g, streets, size, n), streets[n].cells), streets[n].clue, size),
                     size, size)
  {}

  /**
   * trace[k] is the grid after the rule ran over the first k streets and
   * alters[k] says whether some cell changed on the way; the quantifier fires
   * only on an explicit TwoPass or TwoAlters term.
   */
  predicate Traces(trace: seq<seq<Tower>>, alters: seq<bool>, g: seq<Tower>, streets: seq<Street>, size: int)
    requires 1 <= size <= 8 && AllPlaced(streets, size, |g|)
  {
    |trace| == |alters| == |streets| + 1 &&
    (forall k {:trigger TwoPass(g, streets, size, k)} :: 0 <= k <= |streets| ==> trace[k] == TwoPass(g, streets, size, k)) &&
    (forall k {:trigger TwoAlters(g, streets, size, k)} :: 0 <= k <= |streets| ==> alters[k] == TwoAlters(g, streets, size, k))
  }

  lemma TraceOf(g: seq<Tower>, streets: seq<Street>, size: int) returns (trace: seq<seq<Tower>>, alters: seq<bool>)
    requires 1 <= size <= 8 && AllPlaced(streets, size, |g|)
    ensures Traces(trace, alters, g, streets, size)
  {
    trace := seq(|streets| + 1, k requires 0 <= k <= |streets| => TwoPass(g, streets, size, k));
    alters := seq(|streets| + 1, k requires 0 <= k <= |streets| => TwoAlters(g, streets, size, k));
  }

  /**
   * method_first_of_two over the whole grid: the lines in street order, side
   * by side and position by position.  The grid's `changed` flag is raised
   * when some cell changed; the source raises it at the change itself, which
   * nothing reads in between.
   */
  method FirstOfTwo(c: City) returns (changed: bool)
    requires c.Placement()
    modifies c, c.towers
    ensures c.Placement() && c.streets == old(c.streets) && c.mask == old(c.mask)
    ensures c.towers[..] == TwoPass(old(c.towers[..]), c.streets, c.size, 4 * c.size)
    ensures changed == TwoAlters(old(c.towers[..]), c.streets, c.size, 4 * c.size)
    ensures c.changed == (old(c.changed) || changed)
  {
    assert AllPlaced(c.streets, c.size, c.towers.Length);
    ghost var trace, alters;
    changed, trace, alters := TwoGrid(c, c.streets);
    assert trace[4 * c.size] == TwoPass(old(c.towers[..]), c.streets, c.size, 4 * c.size);
    assert alters[4 * c.size] == TwoAlters(old(c.towers[..]), c.streets, c.size, 4 * c.size);
    if changed {
      c.changed := true;
    }
  }

  /** The two loops of method_first_of_two, over the sides and over the positions along each. */
  method TwoGrid(c: City, ghost streets: seq<Street>)
      returns (changed: bool, ghost trace: seq<seq<Tower>>, ghost alters: seq<bool>)
    requires 1 <= c.size <= 8 && c.mask == LowMask(c.size) && c.streets == streets && |streets| == 4 * c.size
    requires AllPlaced(streets, c.size, c.towers.Length)
    modifies c.towers
    ensures Traces(trace, alters, old(c.towers[..]), streets, c.size)
    ensures c.towers[..] == trace[4 * c.size] && changed == alters[4 * c.size]
  {
    ghost var g := c.towers[..];
    trace, alters := TraceOf(g, streets, c.size);
    assert trace[0] == TwoPass(g, streets, c.size, 0) && alters[0] == TwoAlters(g, streets, c.size, 0);
    changed := false;
    ghost var n := 0;
    var side := 0;
    while side < 4
      invariant 0 <= side <= 4 && n == side * c.size
      invariant c.towers[..] == trace[n]
      invariant changed == alters[n]
    {
      var ch := TwoSide(c, side, n, g, streets, trace, alters);
      changed := changed || ch;
      side := side + 1;
      n := n + c.size;
    }
  }

  /** The inner loop over the lines of one side; n is the number of its first street. */
  method TwoSide(c: City, side: int, ghost n: int, ghost g: seq<Tower>, ghost streets: seq<Street>,
                 ghost trace: seq<seq<Tower>>, ghost alters: seq<bool>)
      returns (changed: bool)
    requires 1 <= c.size <= 8 && c.mask == LowMask(c.size) && c.streets == streets && |streets| == 4 * c.size
    requires 0 <= side < 4 && n == side * c.size
    requires AllPlaced(streets, c.size, |g|) && Traces(trace, alters, g, streets, c.size) && c.towers[..] == trace[n]
    modifies c.towers
    ensures n + c.size <= 4 * c.size
    ensures c.towers[..] == trace[n + c.size]
    ensures alters[n + c.size] <==> alters[n] || changed
  {
    assert n + c.size == (side + 1) * c.size <= 4 * c.size;
    changed := false;
    ghost var m := n;
    var pos := 0;
    while pos < c.size
      invariant 0 <= pos <= c.size && m == n + pos
      invariant c.towers[..] == trace[m]
      invariant alters[m] <==> alters[n] || changed
    {
      var ch := TwoStreet(c, side, pos, m, g, streets, trace, alters);
      changed := changed || ch;
      pos := pos + 1;
      m := m + 1;
    }
  }

  /**
   * The body of the loops: line (side, pos), the line of street m.  Its clue
   * is the street's (city_get_clue) and its cells are the street's cells,
   * which on a valid grid are the cells city_get_tower returns
   * (Grid.City.StreetCell).
   */
  method TwoStreet(c: City, side: int, pos: int, ghost m: int, ghost g: seq<Tower>, ghost streets: seq<Street>,
                   ghost trace: seq<seq<Tower>>, ghost alters: seq<bool>)
      returns (changed: bool)
    requires 1 <= c.size <= 8 && c.mask == LowMask(c.size) && c.streets == streets && |streets| == 4 * c.size
    requires 0 <= side < 4 && 0 <= pos < c.size
    requires AllPlaced(streets, c.size, |g|) && Traces(trace, alters, g, streets, c.size)
    requires m == StreetNumber(c.size, side, pos) && c.towers[..] == trace[m]
    modifies c.towers
    ensures c.towers[..] == trace[m + 1]
    ensures alters[m + 1] <==> alters[m] || changed
  {
    assert trace[m] == TwoPass(g, streets, c.size, m) && alters[m] == TwoAlters(g, streets, c.size, m);
    assert trace[m + 1] == TwoPass(g, streets, c.size, m + 1) && alters[m + 1] == TwoAlters(g, streets, c.size, m + 1);
    ghost var p := c.towers[..];
    TwoPassNext(g, streets, c.size, m);
    var i := StreetNumber(c.size, side, pos);
    var line := c.streets[i].cells;
    var clue := c.streets[i].clue;
    ghost var masks := TwoMasks(Gather(p, line), clue, c.size);
    ghost var vals := Touched(Gather(p, line), masks, c.size);
    TwoMasksHold(Gather(p, line), clue, c.size);
    TouchesHold(p, line, masks, c.size);
    changed := TwoLine(c.towers, line, clue, line[0], c.size, c.mask, masks, vals);
    WrittenIsApplied(p, line, masks, vals, c.size, c.size);
  }

  /**
   * One line: skipped unless its clue is 2 and its first cell, at index
   * first, is unresolved; otherwise the mask is the full mask shifted down
   * to the heights below the first cell's tallest candidate, and the rest of
   * the line is scanned.
   */
  method TwoLine(a: array<Tower>, line: seq<int>, clue: int, first: int, size: int, full: Bits,
                 ghost masks: seq<Option<Bits>>, ghost vals: seq<Tower>)
      returns (changed: bool)
    requires 1 <= size <= 8 && |line| == size && Distinct(line, a.Length) && first == line[0] && full == LowMask(size)
    requires TwoMasksAre(masks, Gather(a[..], line), clue, size) && TouchesAre(vals, a[..], line, masks, size)
    modifies a
    ensures a[..] == Written(old(a[..]), line, vals, size)
    ensures changed == Differs(old(a[..]), line, vals, size)
  {
    ghost var g := a[..];
    var tower := a[first];
    if clue != 2 || tower.height != 0 {
      TwoKeep(g, line, clue, size, masks, vals);
      return false;
    }
    var top: Bits := 1 << (size - 1);
    BitIsShift(size);
    var limit := GetMaxHeight(tower, size);
    MaxAtMost(tower.options, size);
    var mask := ShiftRight(full, size + 1 - limit);
    LowMaskShift(size, limit);
    ghost var stop := TwoPlanHolds(g, line, clue, size, masks, vals);
    changed := TwoWalk(a, line, size, limit, top, mask, g, stop, vals);
  }

  /**
   * What the scan of a clue-2 line writes at cell k, given where it stops:
   * cells after the first and up to the stop that are unresolved are
   * narrowed, with the tallest building allowed at the stop; any other cell
   * stays.
   */
  function TwoPlanned(g: seq<Tower>, line: seq<int>, size: int, top: Bits, mask: Bits, stop: int, k: int): Tower
    requires 1 <= size <= 8 && |line| == size && Distinct(line, |g|) && 0 <= k < size
  {
    var t := g[line[k]];
    if k == 0 || k > stop || t.height != 0 then t
    else if k < stop then Narrow(t, mask, size)
    else Narrow(t, top | mask, size)
  }

  /** Halts, with the tallest building's bit given as top. */
  predicate Ends(t: Tower, limit: int, top: Bits)
  {
    t.height > limit || (t.height == 0 && t.options & top != 0)
  }

  /** vals are the scan's writes and stop is where it stops. */
  predicate TwoPlan(g: seq<Tower>, line: seq<int>, size: int, limit: int, top: Bits, mask: Bits, stop: int,
                    vals: seq<Tower>)
  {
    1 <= size <= 8 && |line| == size && Distinct(line, |g|) && 0 <= limit <= size && |vals| == size &&
    1 <= stop <= size &&
    (forall k {:trigger TwoPlanned(g, line, size, top, mask, stop, k)} :: 0 <= k < size ==>
       vals[k] == TwoPlanned(g, line, size, top, mask, stop, k)) &&
    (forall k :: 1 <= k < stop ==> !Ends(g[line[k]], limit, top)) &&
    (stop < size ==> Ends(g[line[stop]], limit, top))
  }

  /** On a clue-2 line with an unresolved first cell, the touched cells are the scan's writes. */
  lemma TwoPlanHolds(g: seq<Tower>, line: seq<int>, clue: int, size: int, masks: seq<Option<Bits>>, vals: seq<Tower>)
      returns (stop: int)
    requires 1 <= size <= 8 && |line| == size && Distinct(line, |g|)
    requires TwoMasksAre(masks, Gather(g, line), clue, size) && TouchesAre(vals, g, line, masks, size)
    requires clue == 2 && g[line[0]].height == 0
    ensures 0 <= MaxHeight(g[line[0]].options, size) <= size
    ensures TwoPlan(g, line, size, MaxHeight(g[line[0]].options, size), Bit(size),
                    Below(MaxHeight(g[line[0]].options, size)), stop, vals)
  {
    MaxAtMost(g[line[0]].options, size);
    var limit := MaxHeight(g[line[0]].options, size);
    stop := Stop(Gather(g, line), limit, size, 1);
    TwoWrites(g, line, clue, size, masks, vals, limit, stop);
    StopEnds(g, line, size, limit, stop);
  }

  /** The touched cells are the scan's writes. */
  lemma TwoWrites(g: seq<Tower>, line: seq<int>, clue: int, size: int, masks: seq<Option<Bits>>, vals: seq<Tower>,
                  limit: int, stop: int)
    requires 1 <= size <= 8 && |line| == size && Distinct(line, |g|)
    requires TwoMasksAre(masks, Gather(g, line), clue, size) && TouchesAre(vals, g, line, masks, size)
    requires clue == 2 && g[line[0]].height == 0 && 0 <= limit <= size && limit == MaxHeight(g[line[0]].options, size)
    requires stop == Stop(Gather(g, line), limit, size, 1)
    ensures forall k {:trigger TwoPlanned(g, line, size, Bit(size), Below(limit), stop, k)} :: 0 <= k < size ==>
              vals[k] == TwoPlanned(g, line, size, Bit(size), Below(limit), stop, k)
  {
    var cells := Gather(g, line);
    forall k | 0 <= k < size ensures vals[k] == TwoPlanned(g, line, size, Bit(size), Below(limit), stop, k) {
      assert masks[k] == TwoMask(cells, clue, size, k);
      assert vals[k] == Touch(g[line[k]], masks[k], size);
    }
  }

  /** The cells before the stop do not end the scan and the cell at the stop does. */
  lemma StopEnds(g: seq<Tower>, line: seq<int>, size: int, limit: int, stop: int)
    requires 1 <= size <= 8 && |line| == size && Distinct(line, |g|)
    requires stop == Stop(Gather(g, line), limit, size, 1)
    ensures forall k :: 1 <= k < stop ==> !Ends(g[line[k]], limit, Bit(size))
    ensures stop < size ==> Ends(g[line[stop]], limit, Bit(size))
  {
    var cells := Gather(g, line);
    forall k | 1 <= k < stop ensures !Ends(g[line[k]], limit, Bit(size)) {
      assert !Halts(cells[k], limit, size);
    }
    if stop < size {
      assert Halts(cells[stop], limit, size);
    }
  }

  /** The scan of the cells after the first, until one ends it. */
  method TwoWalk(a: array<Tower>, line: seq<int>, size: int, limit: int, top: Bits, mask: Bits,
                 ghost g: seq<Tower>, ghost stop: int, ghost vals: seq<Tower>)
      returns (changed: bool)
    requires TwoPlan(g, line, size, limit, top, mask, stop, vals) && a[..] == g
    modifies a
    ensures a[..] == Written(g, line, vals, size)
    ensures changed == Differs(g, line, vals, size)
  {
    TwoSkip(g, line, size, limit, top, mask, stop, vals, 0, 1);
    changed := false;
    var halt := false;
    var i := 1;
    while i < size && !halt
      invariant 1 <= i <= size
      invariant !halt ==> i <= stop
      invariant halt ==> i == stop + 1
      invariant a[..] == Written(g, line, vals, i)
      invariant changed == Differs(g, line, vals, i)
    {
      var c;
      c, halt := TwoTick(a, line, size, limit, top, mask, i, g, stop, vals);
      changed := changed || c;
      i := i + 1;
    }
    TwoSkip(g, line, size, limit, top, mask, stop, vals, i, size);
  }

  /**
   * The body of the scan for cell i: a resolved cell taller than limit ends
   * it untouched, another resolved cell is passed over, an unresolved cell
   * able to hold the tallest building is narrowed to it or the mask and ends
   * the scan, and any other unresolved cell is narrowed to the mask.
   */
  method TwoTick(a: array<Tower>, line: seq<int>, size: int, limit: int, top: Bits, mask: Bits, i: int,
                 ghost g: seq<Tower>, ghost stop: int, ghost vals: seq<Tower>)
      returns (c: bool, halt: bool)
    requires TwoPlan(g, line, size, limit, top, mask, stop, vals) && |g| == a.Length
    requires 1 <= i <= stop && i < size && a[..] == Written(g, line, vals, i)
    modifies a
    ensures a[..] == Written(g, line, vals, i + 1)
    ensures Differs(g, line, vals, i + 1) <==> Differs(g, line, vals, i) || c
    ensures halt ==> i == stop
    ensures !halt ==> i < stop
  {
    TwoAt(g, line, size, limit, top, mask, stop, vals, i);
    WrittenStep(g, line, vals, i);
    var tower := a[line[i]];
    if tower.height != 0 {
      WrittenSame(g, line, vals, i);
      return false, tower.height > limit;
    }
    halt := tower.options & top != 0;
    c := WriteAt(a, line, vals, i, if halt then top | mask else mask, size, g);
  }

  /** What the plan says of cell i up to the stop: where the scan stops and what it writes. */
  lemma TwoAt(g: seq<Tower>, line: seq<int>, size: int, limit: int, top: Bits, mask: Bits, stop: int,
              vals: seq<Tower>, i: int)
    requires TwoPlan(g, line, size, limit, top, mask, stop, vals) && 1 <= i <= stop && i < size
    ensures g[line[i]].height != 0 ==> vals[i] == g[line[i]] && (g[line[i]].height > limit <==> i == stop)
    ensures g[line[i]].height == 0 ==>
              (g[line[i]].options & top != 0 <==> i == stop) &&
              vals[i] == Narrow(g[line[i]], if i == stop then top | mask else mask, size)
  {
    assert vals[i] == TwoPlanned(g, line, size, top, mask, stop, i);
    assert Ends(g[line[i]], limit, top) <==> i == stop;
  }

  /** The first cell and the cells past the stop keep their values. */
  lemma TwoSkip(g: seq<Tower>, line: seq<int>, size: int, limit: int, top: Bits, mask: Bits, stop: int,
                vals: seq<Tower>, i: int, j: int)
    requires TwoPlan(g, line, size, limit, top, mask, stop, vals) && 0 <= i <= j <= size && (i == j || j <= 1 || i > stop)
    ensures Written(g, line, vals, j) == Written(g, line, vals, i)
    ensures Differs(g, line, vals, j) <==> Differs(g, line, vals, i)
  {
    forall k | i <= k < j ensures vals[k] == g[line[k]] {
      assert vals[k] == TwoPlanned(g, line, size, top, mask, stop, k);
    }
    WrittenSkip(g, line, vals, i, j);
  }

  /** A line whose clue is not 2 or whose first cell is resolved is left as it was. */
  lemma TwoKeep(g: seq<Tower>, line: seq<int>, clue: int, size: int, masks: seq<Option<Bits>>, vals: seq<Tower>)
    requires 1 <= size <= 8 && |line| == size && Distinct(line, |g|)
    requires TwoMasksAre(masks, Gather(g, line), clue, size) && TouchesAre(vals, g, line, masks, size)
    requires clue != 2 || g[line[0]].height != 0
    ensures Written(g, line, vals, size) == g
    ensures !Differs(g, line, vals, size)
  {
    forall k | 0 <= k < size ensures vals[k] == g[line[k]] {
      assert masks[k] == TwoMask(Gather(g, line), clue, size, k);
      assert vals[k] == Touch(g[line[k]], masks[k], size);
    }
    WrittenSkip(g, line, vals, 0, size);
  }

  // ---------------------------------------------------------------------------
  // What the rule does.

  /** The mask holds exactly the heights below limit; with the tallest building added it holds that one too. */
  lemma BelowMeaning(limit: int, size: int, x: int)
    requires 0 <= limit <= size <= 8 && 1 <= size
    ensures Has(Below(limit), x) <==> 1 <= x < limit
    ensures Has(Bit(size) | Below(limit), x) <==> x == size || 1 <= x < limit
  {
    LowMaskHas(0, x);
    if limit > 0 {
      LowMaskHas(limit - 1, x);
    }
    OrHas(Bit(size), Below(limit), x);
    BitHas(size, x);
  }

  /**
   * Which cells of a line the rule touches: exactly the unresolved cells
   * after the first of a clue-2 line with an unresolved first cell that no
   * earlier cell's stop cuts off; the tallest building is allowed exactly at
   * the cell that itself ends the scan; the first cell never.
   */
  lemma TwoMaskMeaning(cells: seq<Tower>, clue: int, size: int, i: int)
    requires 1 <= size <= 8 && |cells| == size && 0 <= i < size
    ensures TwoMask(cells, clue, size, 0).None?
    ensures TwoMask(cells, clue, size, i).Some? <==>
              clue == 2 && cells[0].height == 0 && 0 < i && cells[i].height == 0 &&
              forall k :: 1 <= k < i ==> !Halts(cells[k], MaxHeight(cells[0].options, size), size)
    ensures TwoMask(cells, clue, size, i).Some? ==>
              (MaxAtMost(cells[0].options, size);
               TwoMask(cells, clue, size, i).value ==
                 if Has(cells[i].options, size) then Bit(size) | Below(MaxHeight(cells[0].options, size))
                 else Below(MaxHeight(cells[0].options, size)))
  {
    if clue == 2 && cells[0].height == 0 && 0 < i {
      MaxAtMost(cells[0].options, size);
      var limit := MaxHeight(cells[0].options, size);
      var stop := Stop(cells, limit, size, 1);
      if cells[i].height == 0 && i > stop {
        assert 1 <= stop < i && Halts(cells[stop], limit, size);
      }
    }
  }

  /**
   * The rule keeps every cell well formed, only removes candidates, and
   * leaves resolved cells alone.
   */
  lemma {:induction false} TwoPassOk(g: seq<Tower>, streets: seq<Street>, size: int, n: int)
    requires 1 <= size <= 8 && AllPlaced(streets, size, |g|) && 0 <= n <= |streets|
    requires forall j :: 0 <= j < |g| ==> Ok(g[j], size)
    ensures forall j :: 0 <= j < |g| ==>
              Ok(TwoPass(g, streets, size, n)[j], size) && Narrower(TwoPass(g, streets, size, n)[j], g[j])
    ensures forall j :: 0 <= j < |g| && g[j].height != 0 ==> TwoPass(g, streets, size, n)[j] == g[j]
  {
    if n > 0 {
      TwoPassOk(g, streets, size, n - 1);
      var p := TwoPass(g, streets, size, n - 1);
      var line := streets[n - 1].cells;
      var masks := TwoMasks(Gather(p, line), streets[n - 1].clue, size);
      AppliedOk(p, line, masks, size);
      NarrowerTrans(TwoPass(g, streets, size, n), p, g);
    }
  }
}
