/**
 * method_step_down (src/methods/step_down.c): when exactly one building of
 * the clue is still missing, a hill that holds every vacant cell of the line
 * must show it with its first cell.  So when that cell rises above the hill's
 * shadow, every later vacant cell of the hill stays below the first cell's
 * tallest candidate: one step down.
 */
module StepDownRule {
  import opened Bitmask
  import opened Towers
  import opened Geometry
  import opened Hills
  import opened Streets
  import opened Rules
  import opened StaircaseRule

  /** The mask of the rule: the heights below the tallest candidate of the hill's first cell. */
  function DownBand(t: Tower, size: int): Bits
    requires 0 <= size <= 8
  {
    MaxAtMost(t.options, size);
    Range(1, MaxHeight(t.options, size) - 1)
  }

  /** The hill holds every vacant cell of the line and its first cell rises above its shadow. */
  predicate Leads(cells: seq<Tower>, h: Hill, total: int, size: int)
    requires HillOk(h, size) && |cells| == size
  {
    h.vacant == total && h.shadow < MinHeight(cells[h.first].options, size)
  }

  /**
   * The mask one hill's pass gives cell i: the rule's mask for the unresolved
   * vacant cells after the first of a leading hill and before index bound
   * (size for method_step_down, first_highest for method_slope), none
   * otherwise.
   */
  function DownMask(cells: seq<Tower>, h: Hill, total: int, bound: int, size: int, i: int): Option<Bits>
    requires HillOk(h, size) && |cells| == size && 0 <= i < size
  {
    if !Leads(cells, h, total, size) || i <= h.first || i >= bound || !Active(h, i) || cells[i].height != 0 then None
    else Some(DownBand(cells[h.first], size))
  }

  function DownMasks(cells: seq<Tower>, h: Hill, total: int, bound: int, size: int): (masks: seq<Option<Bits>>)
    requires HillOk(h, size) && |cells| == size
    ensures |masks| == size
  {
    seq(size, i requires 0 <= i < size => DownMask(cells, h, total, bound, size, i))
  }

  /** masks are the masks of a hill's pass; the quantifier fires only on an explicit DownMask term. */
  predicate DownMasksAre(masks: seq<Option<Bits>>, cells: seq<Tower>, h: Hill, total: int, bound: int, size: int)
    requires HillOk(h, size) && |cells| == size
  {
    |masks| == size &&
    forall i {:trigger DownMask(cells, h, total, bound, size, i)} :: 0 <= i < size ==>
      masks[i] == DownMask(cells, h, total, bound, size, i)
  }

  lemma DownMasksHold(cells: seq<Tower>, h: Hill, total: int, bound: int, size: int)
    requires HillOk(h, size) && |cells| == size
    ensures DownMasksAre(DownMasks(cells, h, total, bound, size), cells, h, total, bound, size)
  {}

  /** The passes of the line's hills one after the other, each on the cells the previous ones left. */
  function DownPass(g: seq<Tower>, line: seq<int>, hills: seq<Hill>, total: int, bound: int, size: int, n: int): (r: seq<Tower>)
    requires 1 <= size <= 8 && |line| == size && Distinct(line, |g|) && 0 <= n <= |hills| && AllOk(hills, size)
    ensures |r| == |g|
  {
    if n == 0 then g
    else
      var p := DownPass(g, line, hills, total, bound, size, n - 1);
      Applied(p, line, DownMasks(Gather(p, line), hills[n - 1], total, bound, size), size, size)
  }

  /** Some cell changed during the passes of the first n hills. */
  predicate DownAlters(g: seq<Tower>, line: seq<int>, hills: seq<Hill>, total: int, bound: int, size: int, n: int)
    requires 1 <= size <= 8 && |line| == size && Distinct(line, |g|) && 0 <= n <= |hills| && AllOk(hills, size)
  {
    n > 0 &&
    (DownAlters(g, line, hills, total, bound, size, n - 1) ||
     var p := DownPass(g, line, hills, total, bound, size, n - 1);
     Alters(p, line, DownMasks(Gather(p, line), hills[n - 1], total, bound, size), size, size))
  }

  /** The step-down condition: exactly one building of the clue is missing. */
  predicate Steep(st: Street)
  {
    st.clue >= 2 && st.vacant != 0 && st.clue - st.visible == 1
  }

  /**
   * method_step_down.  The street's statistics are taken as they are; every
   * hill must be well formed.  Off the step-down condition nothing changes and
   * the result is false; otherwise the hills are passed in order and the
   * result says whether some cell changed.
   */
  method StepDown(a: array<Tower>, st: Street, size: int) returns (changed: bool)
    requires 1 <= size <= 8 && Placed(st, size, a.Length) && AllOk(st.hills, size)
    modifies a
    ensures !Steep(st) ==> !changed && a[..] == old(a[..])
    ensures Steep(st) ==>
              a[..] == DownPass(old(a[..]), st.cells, st.hills, st.vacant, size, size, |st.hills|) &&
              changed == DownAlters(old(a[..]), st.cells, st.hills, st.vacant, size, size, |st.hills|)
  {
    changed := false;
    var clue := st.clue;
    if clue < 2 {
      return false;
    }
    var totalVisible := st.visible;
    var totalVacant := st.vacant;
    if totalVacant == 0 || clue - totalVisible != 1 {
      return false;
    }
    changed := DownHills(a, st.cells, st.hills, totalVacant, size, size);
  }

  /** The loop over the hills. */
  method DownHills(a: array<Tower>, line: seq<int>, hills: seq<Hill>, total: int, bound: int, size: int) returns (changed: bool)
    requires 1 <= size <= 8 && |line| == size && Distinct(line, a.Length) && AllOk(hills, size)
    modifies a
    ensures a[..] == DownPass(old(a[..]), line, hills, total, bound, size, |hills|)
    ensures changed == DownAlters(old(a[..]), line, hills, total, bound, size, |hills|)
  {
    ghost var g := a[..];
    changed := false;
    var i := 0;
    while i < |hills|
      invariant 0 <= i <= |hills|
      invariant a[..] == DownPass(g, line, hills, total, bound, size, i)
      invariant changed == DownAlters(g, line, hills, total, bound, size, i)
    {
      var c := DownStep(a, line, hills, total, bound, size, i, g);
      changed := changed || c;
      i := i + 1;
    }
  }

  /** The body of the loop over the hills: one hill's pass. */
  method DownStep(a: array<Tower>, line: seq<int>, hills: seq<Hill>, total: int, bound: int, size: int, i: int, ghost g: seq<Tower>)
      returns (c: bool)
    requires 1 <= size <= 8 && |line| == size && Distinct(line, a.Length) && AllOk(hills, size)
    requires 0 <= i < |hills| && |g| == a.Length && a[..] == DownPass(g, line, hills, total, bound, size, i)
    modifies a
    ensures a[..] == DownPass(g, line, hills, total, bound, size, i + 1)
    ensures DownAlters(g, line, hills, total, bound, size, i + 1) <==> DownAlters(g, line, hills, total, bound, size, i) || c
  {
    ghost var p := a[..];
    ghost var masks := DownMasks(Gather(p, line), hills[i], total, bound, size);
    ghost var vals := Touched(Gather(p, line), masks, size);
    DownPassNext(g, line, hills, total, bound, size, i);
    DownMasksHold(Gather(p, line), hills[i], total, bound, size);
    TouchesHold(p, line, masks, size);
    c := DownHill(a, line, hills[i], total, bound, size, masks, vals);
    WrittenIsApplied(p, line, masks, vals, size, size);
  }

  /** The pass of one more hill. */
  lemma DownPassNext(g: seq<Tower>, line: seq<int>, hills: seq<Hill>, total: int, bound: int, size: int, i: int)
    requires 1 <= size <= 8 && |line| == size && Distinct(line, |g|) && 0 <= i < |hills| && AllOk(hills, size)
    ensures DownPass(g, line, hills, total, bound, size, i + 1) ==
              Applied(DownPass(g, line, hills, total, bound, size, i), line,
                      DownMasks(Gather(DownPass(g, line, hills, total, bound, size, i), line), hills[i], total, bound, size),
                      size, size)
    ensures DownAlters(g, line, hills, total, bound, size, i + 1) <==>
              DownAlters(g, line, hills, total, bound, size, i) ||
              Alters(DownPass(g, line, hills, total, bound, size, i), line,
                     DownMasks(Gather(DownPass(g, line, hills, total, bound, size, i), line), hills[i], total, bound, size),
                     size, size)
  {}

  /** What the walk over one hill's cells keeps fixed. */
  predicate DownWalking(g: seq<Tower>, line: seq<int>, h: Hill, total: int, bound: int, size: int,
                        masks: seq<Option<Bits>>, vals: seq<Tower>)
  {
    1 <= size <= 8 && |line| == size && Distinct(line, |g|) && HillOk(h, size) &&
    DownMasksAre(masks, Gather(g, line), h, total, bound, size) && TouchesAre(vals, g, line, masks, size)
  }

  /**
   * What the walk over a leading hill writes at cell k: a vacant unresolved
   * cell after the first is narrowed with mask, any other cell stays.
   */
  function Planned(g: seq<Tower>, line: seq<int>, h: Hill, bound: int, size: int, mask: Bits, k: int): Tower
    requires 1 <= size <= 8 && |line| == size && Distinct(line, |g|) && HillOk(h, size) && 0 <= k < size
  {
    if h.first < k < bound && Active(h, k) && g[line[k]].height == 0 then Narrow(g[line[k]], mask, size) else g[line[k]]
  }

  /** vals are the walk's writes; the quantifier fires only on an explicit Planned term. */
  predicate Plan(g: seq<Tower>, line: seq<int>, h: Hill, bound: int, size: int, mask: Bits, vals: seq<Tower>)
  {
    1 <= size <= 8 && |line| == size && Distinct(line, |g|) && HillOk(h, size) && |vals| == size &&
    forall k {:trigger Planned(g, line, h, bound, size, mask, k)} :: 0 <= k < size ==>
      vals[k] == Planned(g, line, h, bound, size, mask, k)
  }

  /** Once the hill leads, the touched cells of its pass are the walk's writes with the rule's mask. */
  lemma DownPlan(g: seq<Tower>, line: seq<int>, h: Hill, total: int, bound: int, size: int, mask: Bits,
                 masks: seq<Option<Bits>>, vals: seq<Tower>)
    requires DownWalking(g, line, h, total, bound, size, masks, vals)
    requires Leads(Gather(g, line), h, total, size) && mask == DownBand(g[line[h.first]], size)
    ensures Plan(g, line, h, bound, size, mask, vals)
  {
    forall k | 0 <= k < size ensures vals[k] == Planned(g, line, h, bound, size, mask, k) {
      assert masks[k] == DownMask(Gather(g, line), h, total, bound, size, k);
      assert vals[k] == Touch(g[line[k]], masks[k], size);
    }
  }

  /**
   * One hill of the loop in method_step_down: a hill that does not hold all
   * the vacancy, or whose first cell does not rise above its shadow, is
   * skipped; otherwise the mask is built from the first cell and the hill's
   * later cells are walked.  The pass is stated as the writes vals of the
   * touched cells (WrittenIsApplied).
   */
  method DownHill(a: array<Tower>, line: seq<int>, h: Hill, total: int, bound: int, size: int,
                  ghost masks: seq<Option<Bits>>, ghost vals: seq<Tower>)
      returns (changed: bool)
    requires DownWalking(a[..], line, h, total, bound, size, masks, vals)
    modifies a
    ensures a[..] == Written(old(a[..]), line, vals, size)
    ensures changed == Differs(old(a[..]), line, vals, size)
  {
    ghost var g := a[..];
    var tower := a[line[h.first]];
    assert tower == Gather(g, line)[h.first];
    var minHeight := GetMinHeight(tower, size);
    if h.vacant != total || h.shadow >= minHeight {
      DownKeep(g, line, h, total, bound, size, masks, vals);
      return false;
    }
    var maxHeight := GetMaxHeight(tower, size);
    MaxAtMost(tower.options, size);
    var mask := GetMask(1, maxHeight - 1);
    DownPlan(g, line, h, total, bound, size, mask, masks, vals);
    changed := DownWalk(a, line, h, bound, size, mask, g, vals);
  }

  /**
   * The inner loop: the action bit moves on before each cell after the
   * first, and each vacant unresolved cell is narrowed with the mask by the
   * guarded narrowing.
   */
  method DownWalk(a: array<Tower>, line: seq<int>, h: Hill, bound: int, size: int, mask: Bits,
                  ghost g: seq<Tower>, ghost vals: seq<Tower>)
      returns (changed: bool)
    requires Plan(g, line, h, bound, size, mask, vals) && a[..] == g
    modifies a
    ensures a[..] == Written(g, line, vals, size)
    ensures changed == Differs(g, line, vals, size)
  {
    PlanKeep(g, line, h, bound, size, mask, vals, 0, h.first + 1);
    changed := false;
    var enableBit: Bits := 1;
    var enableMask := h.actionMask;
    var tw := h.first + 1;
    while tw <= h.last && tw < bound
      invariant h.first + 1 <= tw <= h.last + 1
      invariant a[..] == Written(g, line, vals, tw)
      invariant changed == Differs(g, line, vals, tw)
      invariant enableBit == Probe(tw - 1 - h.first)
    {
      var c;
      c, enableBit := DownTick(a, line, h, bound, size, tw, mask, enableBit, enableMask, g, vals);
      changed := changed || c;
      tw := tw + 1;
    }
    PlanKeep(g, line, h, bound, size, mask, vals, tw, size);
  }

  /** The body of the inner loop for cell tw. */
  method DownTick(a: array<Tower>, line: seq<int>, h: Hill, bound: int, size: int, tw: int, mask: Bits,
                  enableBit: Bits, enableMask: Bits, ghost g: seq<Tower>, ghost vals: seq<Tower>)
      returns (c: bool, enableBit': Bits)
    requires Plan(g, line, h, bound, size, mask, vals) && |g| == a.Length
    requires h.first < tw <= h.last && tw < bound && enableMask == h.actionMask && enableBit == Probe(tw - 1 - h.first)
    requires a[..] == Written(g, line, vals, tw)
    modifies a
    ensures a[..] == Written(g, line, vals, tw + 1)
    ensures Differs(g, line, vals, tw + 1) <==> Differs(g, line, vals, tw) || c
    ensures enableBit' == Probe(tw - h.first)
  {
    enableBit' := enableBit << 1;
    DownBit(h, tw, enableBit, size);
    WrittenStep(g, line, vals, tw);
    assert vals[tw] == Planned(g, line, h, bound, size, mask, tw);
    if enableMask & enableBit' != 0 && a[line[tw]].height == 0 {
      c := WriteAt(a, line, vals, tw, mask, size, g);
    } else {
      WrittenSame(g, line, vals, tw);
      c := false;
    }
  }

  /** The action bit, moved on before cell tw, tests whether the cell is vacant. */
  lemma DownBit(h: Hill, tw: int, enableBit: Bits, size: int)
    requires HillOk(h, size) && h.first < tw <= h.last && enableBit == Probe(tw - 1 - h.first)
    ensures enableBit << 1 == Probe(tw - h.first)
    ensures (h.actionMask & (enableBit << 1) != 0) <==> Active(h, tw)
  {
    ProbeNext(tw - 1 - h.first);
    BitIsProbe(tw - h.first);
  }

  /** The cells of the line up to the hill's first and past its last keep their values. */
  lemma PlanKeep(g: seq<Tower>, line: seq<int>, h: Hill, bound: int, size: int, mask: Bits, vals: seq<Tower>, i: int, j: int)
    requires Plan(g, line, h, bound, size, mask, vals) && 0 <= i <= j <= size && (j <= h.first + 1 || i > h.last || i >= bound)
    ensures Written(g, line, vals, j) == Written(g, line, vals, i)
    ensures Differs(g, line, vals, j) <==> Differs(g, line, vals, i)
  {
    forall k | i <= k < j ensures vals[k] == g[line[k]] {
      assert vals[k] == Planned(g, line, h, bound, size, mask, k);
    }
    WrittenSkip(g, line, vals, i, j);
  }

  /** A hill that does not lead leaves every cell as it was. */
  lemma DownKeep(g: seq<Tower>, line: seq<int>, h: Hill, total: int, bound: int, size: int,
                 masks: seq<Option<Bits>>, vals: seq<Tower>)
    requires DownWalking(g, line, h, total, bound, size, masks, vals) && !Leads(Gather(g, line), h, total, size)
    ensures Written(g, line, vals, size) == g
    ensures !Differs(g, line, vals, size)
  {
    forall k | 0 <= k < size ensures vals[k] == g[line[k]] {
      assert masks[k] == DownMask(Gather(g, line), h, total, bound, size, k);
      assert vals[k] == Touch(g[line[k]], masks[k], size);
    }
    WrittenSkip(g, line, vals, 0, size);
  }

  // ---------------------------------------------------------------------------
  // What the pass does.

  /** The rule's mask holds exactly the heights below the tallest candidate of the first cell; it is empty when that is 1. */
  lemma DownBandMeaning(t: Tower, size: int, x: int)
    requires 0 <= size <= 8
    ensures Has(DownBand(t, size), x) <==> 1 <= x < MaxHeight(t.options, size)
    ensures MaxHeight(t.options, size) <= 1 ==> DownBand(t, size) == 0
  {
    MaxAtMost(t.options, size);
    RangeHas(1, MaxHeight(t.options, size) - 1, x);
  }

  /**
   * Which cells a hill's pass touches and how: exactly the unresolved vacant
   * cells after the first of a hill that holds all the vacancy and whose first
   * cell rises above the shadow, each with the rule's mask; the hill's first
   * cell never.
   */
  lemma DownMaskMeaning(cells: seq<Tower>, h: Hill, total: int, bound: int, size: int, i: int)
    requires HillOk(h, size) && |cells| == size && 0 <= i < size
    ensures DownMask(cells, h, total, bound, size, i).Some? <==>
              h.vacant == total && h.shadow < MinHeight(cells[h.first].options, size) &&
              h.first < i <= h.last && i < bound && Has(h.actionMask, i - h.first + 1) && cells[i].height == 0
    ensures DownMask(cells, h, total, bound, size, i).Some? ==> DownMask(cells, h, total, bound, size, i).value == DownBand(cells[h.first], size)
    ensures DownMask(cells, h, total, bound, size, h.first).None?
  {}

  /**
   * On a hill the scan of the cells found, the pass touches exactly the
   * unresolved cells after the hill's first before bound that the scan
   * counted vacant, when the hill leads.
   */
  lemma DownMaskVacant(cells: seq<Tower>, n: int, size: int, hills: seq<Hill>, k: int,
                       total: int, bound: int, i: int)
    requires 1 <= size <= 8 && |cells| == size && 0 <= n <= size && 0 <= i < size
    requires forall j :: 0 <= j < size ==> Ok(cells[j], size)
    requires hills == Close(ScanUpTo(cells, n, size)) && 0 <= k < |hills|
    ensures HillOk(hills[k], size)
    ensures DownMask(cells, hills[k], total, bound, size, i).Some? <==>
              Leads(cells, hills[k], total, size) && hills[k].first < i <= hills[k].last && i < bound &&
              Vacant(cells, i, size) && cells[i].height == 0
  {
    ScanAllOk(cells, n, size);
    DownMaskMeaning(cells, hills[k], total, bound, size, i);
    if hills[k].first <= i <= hills[k].last {
      ActionMarksVacant(cells, n, size, hills, k, i);
    }
  }

  /**
   * The passes keep every cell well formed, only remove candidates, and leave
   * resolved cells and cells off the line alone.
   */
  lemma {:induction false} DownPassOk(g: seq<Tower>, line: seq<int>, hills: seq<Hill>, total: int, bound: int, size: int, n: int)
    requires 1 <= size <= 8 && |line| == size && Distinct(line, |g|) && 0 <= n <= |hills| && AllOk(hills, size)
    requires forall j :: 0 <= j < |g| ==> Ok(g[j], size)
    ensures forall j :: 0 <= j < |g| ==>
              Ok(DownPass(g, line, hills, total, bound, size, n)[j], size) &&
              Narrower(DownPass(g, line, hills, total, bound, size, n)[j], g[j])
    ensures forall j :: 0 <= j < |g| && (g[j].height != 0 || j !in line) ==>
              DownPass(g, line, hills, total, bound, size, n)[j] == g[j]
  {
    if n > 0 {
      DownPassOk(g, line, hills, total, bound, size, n - 1);
      var p := DownPass(g, line, hills, total, bound, size, n - 1);
      var masks := DownMasks(Gather(p, line), hills[n - 1], total, bound, size);
      AppliedOk(p, line, masks, size);
      AppliedLine(p, line, masks, size);
      NarrowerTrans(DownPass(g, line, hills, total, bound, size, n), p, g);
    }
  }
}
