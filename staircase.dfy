/**
 * method_staircase (src/methods/staircase.c): when the hills of a street must
 * supply every building still missing from the clue (vacant == clue - visible),
 * each vacant cell of a hill must be seen, so the vacant cells of a hill rise
 * one above the other.  The k-th of them (counting from 0) is held to the band
 * of heights from max(bottom, shadow + 1) + k up to top + 1 - vacant + k.
 *
 * The same banding is the first branch of method_slope, which walks its own
 * hills and skips resolved cells; StairHill serves both.
 */
module StaircaseRule {
  import opened Bitmask
  import opened Towers
  import opened Geometry
  import opened Hills
  import opened Streets
  import opened Rules

  /** The lowest height of a hill's base band: above the shadow and not below the hill's bottom. */
  function BandLow(h: Hill): int
  {
    Max(h.bottom, h.shadow + 1)
  }

  /** The highest height of a hill's base band: room is left for the vacant cells after the first. */
  function BandTop(h: Hill): int
  {
    h.top + 1 - h.vacant
  }

  /** The band of the k-th vacant cell of a hill: the base band raised by k. */
  function Band(h: Hill, k: int): Bits
    requires 0 <= h.shadow && 0 <= k && BandTop(h) + k <= 8
  {
    Range(BandLow(h) + k, BandTop(h) + k)
  }

  /** Cell i is the (d + 1)-th cell of the hill and its action bit is set. */
  predicate Active(h: Hill, i: int)
  {
    h.first <= i <= h.last && Has(h.actionMask, i - h.first + 1)
  }

  /** How many vacant cells of the hill come before cell i. */
  function Before(h: Hill, i: int): int
    requires h.first <= i && i - h.first <= 8
  {
    PopCount(h.actionMask, i - h.first)
  }

  /** A vacant cell of a well-formed hill has fewer than vacant vacant cells before it. */
  lemma BeforeBound(h: Hill, i: int, size: int)
    requires HillOk(h, size) && Active(h, i)
    ensures 0 <= Before(h, i) < h.vacant
  {
    PopCountMono(h.actionMask, i - h.first + 1, h.last - h.first + 1);
  }

  /**
   * The mask one pass of the banding loop gives cell i of the line: the band of
   * the cell's rank among the vacant cells, for vacant cells of the hill up to
   * index fh; none for other cells, and none for resolved cells when
   * skipResolved (method_slope's guard).
   */
  function StairMask(cells: seq<Tower>, h: Hill, fh: int, size: int, skipResolved: bool, i: int): Option<Bits>
    requires HillOk(h, size) && |cells| == size && 0 <= i < size
  {
    if h.vacant == 0 || !Active(h, i) || i > fh || (skipResolved && cells[i].height != 0) then None
    else
      BeforeBound(h, i, size);
      Some(Band(h, Before(h, i)))
  }

  function StairMasks(cells: seq<Tower>, h: Hill, fh: int, size: int, skipResolved: bool): (masks: seq<Option<Bits>>)
    requires HillOk(h, size) && |cells| == size
    ensures |masks| == size
  {
    seq(size, i requires 0 <= i < size => StairMask(cells, h, fh, size, skipResolved, i))
  }

  /**
   * masks are the masks of a hill's pass over cells.  The quantifier fires
   * only on an explicit StairMask term, so that a loop over the line does not
   * unfold every mask it mentions.
   */
  predicate StairMasksAre(masks: seq<Option<Bits>>, cells: seq<Tower>, h: Hill, fh: int, size: int, skipResolved: bool)
    requires HillOk(h, size) && |cells| == size
  {
    |masks| == size &&
    forall i {:trigger StairMask(cells, h, fh, size, skipResolved, i)} :: 0 <= i < size ==>
      masks[i] == StairMask(cells, h, fh, size, skipResolved, i)
  }

  lemma StairMasksHold(cells: seq<Tower>, h: Hill, fh: int, size: int, skipResolved: bool)
    requires HillOk(h, size) && |cells| == size
    ensures StairMasksAre(StairMasks(cells, h, fh, size, skipResolved), cells, h, fh, size, skipResolved)
  {}

  /** The banding of the line's hills one after the other, each on the cells the previous ones left. */
  function StairPass(g: seq<Tower>, line: seq<int>, hills: seq<Hill>, fh: int, size: int, skipResolved: bool, n: int): (r: seq<Tower>)
    requires 1 <= size <= 8 && |line| == size && Distinct(line, |g|) && 0 <= n <= |hills| && AllOk(hills, size)
    ensures |r| == |g|
  {
    if n == 0 then g
    else
      var p := StairPass(g, line, hills, fh, size, skipResolved, n - 1);
      Applied(p, line, StairMasks(Gather(p, line), hills[n - 1], fh, size, skipResolved), size, size)
  }

  /** Some cell changed during the banding of the first n hills. */
  predicate StairAlters(g: seq<Tower>, line: seq<int>, hills: seq<Hill>, fh: int, size: int, skipResolved: bool, n: int)
    requires 1 <= size <= 8 && |line| == size && Distinct(line, |g|) && 0 <= n <= |hills| && AllOk(hills, size)
  {
    n > 0 &&
    (StairAlters(g, line, hills, fh, size, skipResolved, n - 1) ||
     var p := StairPass(g, line, hills, fh, size, skipResolved, n - 1);
     Alters(p, line, StairMasks(Gather(p, line), hills[n - 1], fh, size, skipResolved), size, size))
  }

  /** The staircase condition: every missing building of the clue must come from a hill. */
  predicate Tight(st: Street)
  {
    st.clue >= 2 && st.vacant != 0 && st.vacant == st.clue - st.visible
  }

  /**
   * method_staircase.  The street's statistics are taken as they are; every
   * hill must be well formed (CurrentStats shows this of current statistics).
   * Off the staircase condition nothing changes and the result is false;
   * otherwise the hills are banded in order and the result says whether some
   * cell changed.
   */
  method Staircase(a: array<Tower>, st: Street, size: int) returns (changed: bool)
    requires 1 <= size <= 8 && Placed(st, size, a.Length) && AllOk(st.hills, size)
    modifies a
    ensures !Tight(st) ==> !changed && a[..] == old(a[..])
    ensures Tight(st) ==>
              a[..] == StairPass(old(a[..]), st.cells, st.hills, st.highestFirst, size, false, |st.hills|) &&
              changed == StairAlters(old(a[..]), st.cells, st.hills, st.highestFirst, size, false, |st.hills|)
  {
    changed := false;
    var clue := st.clue;
    if clue < 2 {
      return false;
    }
    var firstHighest := st.highestFirst;
    var visible := st.visible;
    var vacant := st.vacant;
    if vacant == 0 || vacant != clue - visible {
      return false;
    }
    changed := StairHills(a, st.cells, st.hills, firstHighest, size, false);
  }

  /** The loop over the hills, shared with method_slope. */
  method StairHills(a: array<Tower>, line: seq<int>, hills: seq<Hill>, fh: int, size: int, skipResolved: bool)
      returns (changed: bool)
    requires 1 <= size <= 8 && |line| == size && Distinct(line, a.Length) && AllOk(hills, size)
    modifies a
    ensures a[..] == StairPass(old(a[..]), line, hills, fh, size, skipResolved, |hills|)
    ensures changed == StairAlters(old(a[..]), line, hills, fh, size, skipResolved, |hills|)
  {
    ghost var g := a[..];
    changed := false;
    var i := 0;
    while i < |hills|
      invariant 0 <= i <= |hills|
      invariant a[..] == StairPass(g, line, hills, fh, size, skipResolved, i)
      invariant changed == StairAlters(g, line, hills, fh, size, skipResolved, i)
    {
      var c := StairStep(a, line, hills, fh, size, skipResolved, i, g);
      changed := changed || c;
      i := i + 1;
    }
  }

  /** The body of that loop: hill i is banded when it has vacant cells. */
  method StairStep(a: array<Tower>, line: seq<int>, hills: seq<Hill>, fh: int, size: int, skipResolved: bool,
                   i: int, ghost g: seq<Tower>)
      returns (c: bool)
    requires 1 <= size <= 8 && |line| == size && Distinct(line, a.Length) && AllOk(hills, size)
    requires 0 <= i < |hills| && |g| == a.Length && a[..] == StairPass(g, line, hills, fh, size, skipResolved, i)
    modifies a
    ensures a[..] == StairPass(g, line, hills, fh, size, skipResolved, i + 1)
    ensures StairAlters(g, line, hills, fh, size, skipResolved, i + 1) <==>
              StairAlters(g, line, hills, fh, size, skipResolved, i) || c
  {
    ghost var p := a[..];
    ghost var masks := StairMasks(Gather(p, line), hills[i], fh, size, skipResolved);
    StairPassNext(g, line, hills, fh, size, skipResolved, i);
    if hills[i].vacant == 0 {
      AppliedSkip(p, line, masks, 0, size, size);
      c := false;
    } else {
      ghost var vals := Touched(Gather(p, line), masks, size);
      StairMasksHold(Gather(p, line), hills[i], fh, size, skipResolved);
      TouchesHold(p, line, masks, size);
      c := StairHill(a, line, hills[i], fh, size, skipResolved, masks, vals);
      WrittenIsApplied(p, line, masks, vals, size, size);
    }
  }

  /** The band of one more hill. */
  lemma StairPassNext(g: seq<Tower>, line: seq<int>, hills: seq<Hill>, fh: int, size: int, skipResolved: bool, i: int)
    requires 1 <= size <= 8 && |line| == size && Distinct(line, |g|) && 0 <= i < |hills| && AllOk(hills, size)
    ensures StairPass(g, line, hills, fh, size, skipResolved, i + 1) ==
              Applied(StairPass(g, line, hills, fh, size, skipResolved, i), line,
                      StairMasks(Gather(StairPass(g, line, hills, fh, size, skipResolved, i), line), hills[i], fh, size, skipResolved),
                      size, size)
    ensures StairAlters(g, line, hills, fh, size, skipResolved, i + 1) <==>
              StairAlters(g, line, hills, fh, size, skipResolved, i) ||
              Alters(StairPass(g, line, hills, fh, size, skipResolved, i), line,
                     StairMasks(Gather(StairPass(g, line, hills, fh, size, skipResolved, i), line), hills[i], fh, size, skipResolved),
                     size, size)
  {}

  /** What the walk over one hill's cells keeps fixed: the line, the hill, its masks and the cells they give. */
  predicate Walking(g: seq<Tower>, line: seq<int>, h: Hill, fh: int, size: int, skipResolved: bool,
                    masks: seq<Option<Bits>>, vals: seq<Tower>)
  {
    1 <= size <= 8 && |line| == size && Distinct(line, |g|) && HillOk(h, size) &&
    StairMasksAre(masks, Gather(g, line), h, fh, size, skipResolved) && TouchesAre(vals, g, line, masks, size)
  }

  /**
   * One hill of the loop in method_staircase (and of the staircase branch of
   * method_slope): the base band is computed, then the hill's cells are
   * walked.  The pass is stated as the writes vals of the touched cells
   * (WrittenIsApplied).
   */
  method StairHill(a: array<Tower>, line: seq<int>, h: Hill, fh: int, size: int, skipResolved: bool,
                   ghost masks: seq<Option<Bits>>, ghost vals: seq<Tower>)
      returns (changed: bool)
    requires 1 <= size <= 8 && |line| == size && Distinct(line, a.Length) && HillOk(h, size) && h.vacant > 0
    requires StairMasksAre(masks, Gather(a[..], line), h, fh, size, skipResolved)
    requires TouchesAre(vals, a[..], line, masks, size)
    modifies a
    ensures a[..] == Written(old(a[..]), line, vals, size)
    ensures changed == Differs(old(a[..]), line, vals, size)
  {
    ghost var g := a[..];
    StairKeep(g, line, h, fh, size, skipResolved, masks, vals, 0, h.first);
    WrittenSkip(g, line, vals, 0, h.first);
    var lim := h.shadow + 1;
    var btm := if h.bottom > lim then h.bottom else lim;
    BandBase(h, btm, size);
    var mask := GetMask(btm, h.top + 1 - h.vacant);
    changed := StairWalk(a, line, h, fh, size, skipResolved, mask, g, masks, vals);
  }

  /**
   * The inner loop: walking the hill's cells up to fh, the band is applied to
   * each vacant cell (the guarded narrowing) and raised by
   * one after it; the action bit moves on with every cell.
   */
  method StairWalk(a: array<Tower>, line: seq<int>, h: Hill, fh: int, size: int, skipResolved: bool, mask0: Bits,
                   ghost g: seq<Tower>, ghost masks: seq<Option<Bits>>, ghost vals: seq<Tower>)
      returns (changed: bool)
    requires Walking(g, line, h, fh, size, skipResolved, masks, vals) && |g| == a.Length
    requires Before(h, h.first) < h.vacant ==> mask0 == Band(h, Before(h, h.first))
    requires a[..] == Written(g, line, vals, h.first) && !Differs(g, line, vals, h.first)
    modifies a
    ensures a[..] == Written(g, line, vals, size)
    ensures changed == Differs(g, line, vals, size)
  {
    changed := false;
    var mask := mask0;
    var enableBit: Bits := 1;
    var enableMask := h.actionMask;
    var tw := h.first;
    while tw <= h.last && tw <= fh
      invariant h.first <= tw <= h.last + 1
      invariant a[..] == Written(g, line, vals, tw)
      invariant changed == Differs(g, line, vals, tw)
      invariant enableBit == Probe(tw - h.first)
      invariant Before(h, tw) < h.vacant ==> mask == Band(h, Before(h, tw))
    {
      var c;
      c, mask, enableBit, tw := StairTick(a, line, h, fh, size, skipResolved, tw, mask, enableBit, enableMask, g, masks, vals);
      changed := changed || c;
    }
    StairRest(g, line, h, fh, size, skipResolved, masks, vals, tw);
  }

  /** Past the hill's last cell or past fh, the walk is over. */
  lemma StairRest(g: seq<Tower>, line: seq<int>, h: Hill, fh: int, size: int, skipResolved: bool,
                  masks: seq<Option<Bits>>, vals: seq<Tower>, tw: int)
    requires Walking(g, line, h, fh, size, skipResolved, masks, vals) && h.first <= tw <= size && (tw > h.last || tw > fh)
    ensures Written(g, line, vals, size) == Written(g, line, vals, tw)
    ensures Differs(g, line, vals, size) <==> Differs(g, line, vals, tw)
  {
    StairKeep(g, line, h, fh, size, skipResolved, masks, vals, tw, size);
    WrittenSkip(g, line, vals, tw, size);
  }

  /** The body of the inner loop for cell tw. */
  method StairTick(a: array<Tower>, line: seq<int>, h: Hill, fh: int, size: int, skipResolved: bool, tw: int, mask: Bits,
                   enableBit: Bits, enableMask: Bits,
                   ghost g: seq<Tower>, ghost masks: seq<Option<Bits>>, ghost vals: seq<Tower>)
      returns (c: bool, mask': Bits, enableBit': Bits, tw': int)
    requires Walking(g, line, h, fh, size, skipResolved, masks, vals) && |g| == a.Length
    requires h.first <= tw <= h.last && tw <= fh && enableMask == h.actionMask
    requires enableBit == Probe(tw - h.first)
    requires Before(h, tw) < h.vacant ==> mask == Band(h, Before(h, tw))
    requires a[..] == Written(g, line, vals, tw)
    modifies a
    ensures tw' == tw + 1
    ensures a[..] == Written(g, line, vals, tw')
    ensures Differs(g, line, vals, tw') <==> Differs(g, line, vals, tw) || c
    ensures enableBit' == Probe(tw' - h.first)
    ensures Before(h, tw') < h.vacant ==> mask' == Band(h, Before(h, tw'))
  {
    tw' := tw + 1;
    ProbeStep(h, tw, enableBit, size);
    mask' := mask;
    if enableMask & enableBit != 0 {
      c := StairCell(a, line, h, fh, size, skipResolved, tw, mask, g, masks, vals);
      mask' := mask << 1;
    } else {
      c := false;
      StairPassOver(g, line, h, fh, size, skipResolved, masks, vals, tw);
    }
    enableBit' := enableBit << 1;
  }

  /** The action bit of cell tw tests whether the cell is vacant, and moves on to the next cell. */
  lemma ProbeStep(h: Hill, tw: int, enableBit: Bits, size: int)
    requires HillOk(h, size) && h.first <= tw <= h.last && enableBit == Probe(tw - h.first)
    ensures (h.actionMask & enableBit != 0) <==> Active(h, tw)
    ensures enableBit << 1 == Probe(tw + 1 - h.first)
  {
    BitIsProbe(tw - h.first);
    ProbeNext(tw - h.first);
  }

  /** A cell that is not vacant is passed over, and the rank of the next cell is the same. */
  lemma StairPassOver(g: seq<Tower>, line: seq<int>, h: Hill, fh: int, size: int, skipResolved: bool,
                      masks: seq<Option<Bits>>, vals: seq<Tower>, tw: int)
    requires Walking(g, line, h, fh, size, skipResolved, masks, vals) && h.first <= tw <= h.last && !Active(h, tw)
    ensures Written(g, line, vals, tw + 1) == Written(g, line, vals, tw)
    ensures Differs(g, line, vals, tw + 1) <==> Differs(g, line, vals, tw)
    ensures Before(h, tw + 1) == Before(h, tw)
  {
    PassStep(h, tw, size);
    StairKeep(g, line, h, fh, size, skipResolved, masks, vals, tw, tw + 1);
    WrittenSkip(g, line, vals, tw, tw + 1);
  }

  /** Before the hill, after it or after fh, and on cells not vacant, a hill's pass leaves the cells alone. */
  lemma StairKeep(g: seq<Tower>, line: seq<int>, h: Hill, fh: int, size: int, skipResolved: bool,
                  masks: seq<Option<Bits>>, vals: seq<Tower>, i: int, j: int)
    requires Walking(g, line, h, fh, size, skipResolved, masks, vals) && 0 <= i <= j <= size
    requires j <= h.first || i > h.last || i > fh || (j == i + 1 && !Active(h, i))
    ensures forall k :: i <= k < j ==> vals[k] == g[line[k]]
  {
    forall k | i <= k < j ensures vals[k] == g[line[k]] {
      assert masks[k] == StairMask(Gather(g, line), h, fh, size, skipResolved, k);
      assert vals[k] == Touch(g[line[k]], masks[k], size);
    }
  }

  /** The band the loop starts with is the base band, the band of rank 0. */
  lemma BandBase(h: Hill, btm: int, size: int)
    requires HillOk(h, size) && h.vacant > 0 && btm == Max(h.bottom, h.shadow + 1)
    ensures 1 <= btm && h.top + 1 - h.vacant <= 8
    ensures Before(h, h.first) == 0 && Range(btm, h.top + 1 - h.vacant) == Band(h, Before(h, h.first))
  {}

  /**
   * The body of that loop for a vacant cell: the cell, when it is to be
   * touched, is narrowed with the band of its rank; the band then moves up.
   */
  method StairCell(a: array<Tower>, line: seq<int>, h: Hill, fh: int, size: int, skipResolved: bool, tw: int, mask: Bits,
                   ghost g: seq<Tower>, ghost masks: seq<Option<Bits>>, ghost vals: seq<Tower>)
      returns (c: bool)
    requires Walking(g, line, h, fh, size, skipResolved, masks, vals) && |g| == a.Length
    requires tw <= fh && Active(h, tw)
    requires Before(h, tw) < h.vacant ==> mask == Band(h, Before(h, tw))
    requires a[..] == Written(g, line, vals, tw)
    modifies a
    ensures a[..] == Written(g, line, vals, tw + 1)
    ensures Differs(g, line, vals, tw + 1) <==> Differs(g, line, vals, tw) || c
    ensures Before(h, tw + 1) < h.vacant ==> mask << 1 == Band(h, Before(h, tw + 1))
  {
    BandStep(h, tw, mask, size);
    WrittenStep(g, line, vals, tw);
    StairMaskMeaning(Gather(g, line), h, fh, size, skipResolved, tw);
    assert vals[tw] == Touch(g[line[tw]], masks[tw], size);
    if !skipResolved || a[line[tw]].height == 0 {
      c := WriteAt(a, line, vals, tw, mask, size, g);
    } else {
      WrittenSame(g, line, vals, tw);
      c := false;
    }
  }

  /** A vacant cell: its mask is its band, and the next vacant cell's band is this one raised by one. */
  lemma BandStep(h: Hill, i: int, mask: Bits, size: int)
    requires HillOk(h, size) && Active(h, i)
    requires Before(h, i) < h.vacant ==> mask == Band(h, Before(h, i))
    ensures Before(h, i) < h.vacant && mask == Band(h, Before(h, i))
    ensures Before(h, i + 1) == Before(h, i) + 1
    ensures Before(h, i + 1) < h.vacant ==> mask << 1 == Band(h, Before(h, i + 1))
  {
    BeforeBound(h, i, size);
    var k := Before(h, i);
    if k + 1 < h.vacant {
      ShiftLeftRange(BandLow(h) + k, BandTop(h) + k);
    }
  }

  /** A cell that is not vacant: the rank of the next cell is the same. */
  lemma PassStep(h: Hill, i: int, size: int)
    requires HillOk(h, size) && h.first <= i <= h.last && !Has(h.actionMask, i - h.first + 1)
    ensures Before(h, i + 1) == Before(h, i)
  {}

  // ---------------------------------------------------------------------------
  // What the banding does.

  /**
   * Which cells a hill's pass touches and how: exactly its vacant cells up to
   * fh (unresolved ones only when skipResolved), each with the band of its rank.
   */
  lemma StairMaskMeaning(cells: seq<Tower>, h: Hill, fh: int, size: int, skipResolved: bool, i: int)
    requires HillOk(h, size) && |cells| == size && 0 <= i < size
    ensures StairMask(cells, h, fh, size, skipResolved, i).Some? <==>
              h.vacant > 0 && h.first <= i <= h.last && i <= fh && Has(h.actionMask, i - h.first + 1) &&
              (skipResolved ==> cells[i].height == 0)
    ensures StairMask(cells, h, fh, size, skipResolved, i).Some? ==>
              Before(h, i) < h.vacant && StairMask(cells, h, fh, size, skipResolved, i).value == Band(h, Before(h, i))
  {
    if StairMask(cells, h, fh, size, skipResolved, i).Some? {
      BeforeBound(h, i, size);
    }
  }

  /**
   * On a hill the scan of the cells found, the pass touches exactly the
   * cells of the hill up to fh that the scan counted vacant (unresolved ones
   * only when skipResolved).
   */
  lemma StairMaskVacant(cells: seq<Tower>, n: int, size: int, hills: seq<Hill>, k: int,
                        fh: int, skipResolved: bool, i: int)
    requires 1 <= size <= 8 && |cells| == size && 0 <= n <= size && 0 <= i < size
    requires forall j :: 0 <= j < size ==> Ok(cells[j], size)
    requires hills == Close(ScanUpTo(cells, n, size)) && 0 <= k < |hills|
    ensures HillOk(hills[k], size)
    ensures StairMask(cells, hills[k], fh, size, skipResolved, i).Some? <==>
              hills[k].vacant > 0 && hills[k].first <= i <= hills[k].last && i <= fh && Vacant(cells, i, size) &&
              (skipResolved ==> cells[i].height == 0)
  {
    ScanAllOk(cells, n, size);
    StairMaskMeaning(cells, hills[k], fh, size, skipResolved, i);
    if hills[k].first <= i <= hills[k].last {
      ActionMarksVacant(cells, n, size, hills, k, i);
    }
  }

  /**
   * The band of any vacant cell stays within the hill: its heights run from
   * the base band's bottom raised by the rank up to at most the hill's top, so
   * inside heights 1..size.
   */
  lemma BandWithinTop(h: Hill, k: int, size: int, x: int)
    requires HillOk(h, size) && 0 <= k < h.vacant
    ensures Has(Band(h, k), x) ==> BandLow(h) + k <= x <= h.top && 1 <= x <= size
  {
    RangeHas(BandLow(h) + k, BandTop(h) + k, x);
  }

  /**
   * Banding a well-formed line keeps every cell well formed, only removes
   * candidates, and leaves resolved cells and cells off the line alone.
   */
  lemma {:induction false} StairPassOk(g: seq<Tower>, line: seq<int>, hills: seq<Hill>, fh: int, size: int, skipResolved: bool, n: int)
    requires 1 <= size <= 8 && |line| == size && Distinct(line, |g|) && 0 <= n <= |hills| && AllOk(hills, size)
    requires forall j :: 0 <= j < |g| ==> Ok(g[j], size)
    ensures forall j :: 0 <= j < |g| ==>
              Ok(StairPass(g, line, hills, fh, size, skipResolved, n)[j], size) &&
              Narrower(StairPass(g, line, hills, fh, size, skipResolved, n)[j], g[j])
    ensures forall j :: 0 <= j < |g| && (g[j].height != 0 || j !in line) ==>
              StairPass(g, line, hills, fh, size, skipResolved, n)[j] == g[j]
  {
    if n > 0 {
      StairPassOk(g, line, hills, fh, size, skipResolved, n - 1);
      var p := StairPass(g, line, hills, fh, size, skipResolved, n - 1);
      var masks := StairMasks(Gather(p, line), hills[n - 1], fh, size, skipResolved);
      AppliedOk(p, line, masks, size);
      AppliedLine(p, line, masks, size);
      NarrowerTrans(StairPass(g, line, hills, fh, size, skipResolved, n), p, g);
    }
  }
}
