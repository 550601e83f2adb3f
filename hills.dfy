/**
 * The hill scan of a line (update_hill in src/core/street.c, repeated inline in
 * src/methods/slope.c).  Walking the line from its near end up to the last cell
 * that may hold the tallest height, the scan counts the resolved buildings that
 * are certainly visible and cuts the undetermined stretches between them into
 * hills.  A hill starts at an unresolved cell and ends where a resolved cell
 * taller than everything in it follows; for each hill it records:
 *   - shadow: the height that the cells before it put in front of it;
 *   - top: the tallest height it can reach;
 *   - bottom: the lowest height of a cell in it that can still be seen;
 *   - vacant: how many of its cells can still be seen;
 *   - actionMask: bit j set when the hill's j-th cell is one of those.
 *
 * Scan and Step state the scan as a function of the cells; the method
 * HillScan in module Streets performs it in place, as the source does.
 */
module Hills {
  import opened Bitmask
  import opened Towers

  datatype Hill = Hill(first: int, last: int, vacant: int, actionMask: Bits, shadow: int, top: int, bottom: int)

  /** A cleared record, as after the memset of the hill buffer. */
  const Blank := Hill(0, 0, 0, 0, 0, 0, 0)

  /**
   * The scan's running state: the finished hills, the hill being built and how
   * many cells it has, the running bottom limit, the action bit of the next
   * cell, the visible and vacant totals, and whether a cell of the tallest
   * height has stopped the scan.
   */
  datatype Scan = Scan(closed: seq<Hill>, cur: Hill, hillSize: int, bottomLimit: int, bit: Bits,
                       visible: int, vacant: int, stopped: bool)

  const Start := Scan([], Blank, 0, 0, 1, 0, 0, false)

  function Max(a: int, b: int): int { if a > b then a else b }

  function Min(a: int, b: int): int { if a < b then a else b }

  /** The hill being built, closed after its last cell. */
  function Finished(s: Scan): Hill
  {
    s.cur.(last := s.cur.first + s.hillSize - 1)
  }

  /** The hills at the end of the scan: the open one is closed too. */
  function Close(s: Scan): seq<Hill>
  {
    if s.hillSize != 0 then s.closed + [Finished(s)] else s.closed
  }

  /** One cell, at index i, of the scan. */
  function Step(s: Scan, t: Tower, i: int, size: int): Scan
    requires 0 <= size <= 8
  {
    if s.stopped then s
    else if t.height == size then s.(visible := s.visible + 1, stopped := true)
    else if t.height > s.cur.top then
      Taller(s, t.height)
    else if t.height != 0 && s.hillSize == 0 then s
    else
      Counted(s, MinHeight(t.options, size), MaxHeight(t.options, size), i)
  }

  /** A resolved cell taller than the hill so far: the hill ends and the cell is visible. */
  function Taller(s: Scan, h: int): Scan
  {
    var closed := if s.hillSize != 0 then s.closed + [Finished(s)] else s.closed;
    var cur := if s.hillSize != 0 then Blank.(top := h) else s.cur.(top := h);
    s.(closed := closed, cur := cur, hillSize := 0, visible := s.visible + 1, bottomLimit := h, bit := 1)
  }

  /** The hill a cell at index i joins: the open one, or a new one starting at i. */
  function Joined(s: Scan, i: int): Hill
  {
    s.cur.(first := if s.hillSize == 0 then i else s.cur.first,
           shadow := if s.hillSize == 0 then s.bottomLimit else s.cur.shadow)
  }

  /** The bottom limit a joining cell must rise above: 0 in a new hill. */
  function Limit(s: Scan): int
  {
    if s.hillSize == 0 then 0 else s.bottomLimit
  }

  /**
   * A joining cell whose tallest option is top is vacant when it may rise above
   * the hill's shadow and the bottom limit.
   */
  predicate Rises(s: Scan, top: int, i: int)
  {
    top > Joined(s, i).shadow && top > Limit(s)
  }

  /**
   * A cell at index i with lowest option bottom and tallest option top joins the
   * hill, opening it if needed, and is counted vacant when it Rises.
   */
  function Counted(s: Scan, bottom: int, top: int, i: int): Scan
  {
    var cur := Joined(s, i);
    var rises := Rises(s, top, i);
    s.(cur := cur.(bottom := if !rises then cur.bottom else if cur.bottom == 0 then bottom else Min(cur.bottom, bottom),
                   top := if rises then Max(cur.top, top) else cur.top,
                   vacant := if rises then cur.vacant + 1 else cur.vacant,
                   actionMask := if rises then cur.actionMask | s.bit else cur.actionMask),
       hillSize := s.hillSize + 1,
       bottomLimit := if rises then Max(Limit(s) + 1, bottom) else Limit(s),
       vacant := if rises then s.vacant + 1 else s.vacant,
       bit := s.bit << 1)
  }

  /**
   * Hill h after a vacant cell with lowest option bottom and tallest option top
   * joins it at the action bit: its bounds take the cell in and it counts one
   * more vacant cell.
   */
  function Raised(h: Hill, bottom: int, top: int, bit: Bits): Hill
  {
    h.(bottom := if h.bottom == 0 then bottom else Min(h.bottom, bottom), top := Max(h.top, top),
       vacant := h.vacant + 1, actionMask := h.actionMask | bit)
  }

  /** The scan after the first n cells. */
  function ScanUpTo(cells: seq<Tower>, n: int, size: int): Scan
    requires 0 <= n <= |cells| && 0 <= size <= 8
  {
    if n == 0 then Start else Step(ScanUpTo(cells, n - 1, size), cells[n - 1], n - 1, size)
  }

  // ---------------------------------------------------------------------------
  // What the scan guarantees.

  /**
   * A well-formed hill of a line of the given size: its cells lie in the line,
   * its action mask has one bit per cell and exactly vacant bits set, and when
   * it has a vacant cell its top rises above its shadow and its bottom is a
   * real height.
   */
  predicate HillOk(h: Hill, size: int)
  {
    1 <= size <= 8 && 0 <= h.first <= h.last < size &&
    Within(h.actionMask, LowMask(h.last - h.first + 1)) &&
    PopCount(h.actionMask, h.last - h.first + 1) == h.vacant &&
    0 <= h.shadow && 0 <= h.top <= size &&
    (h.vacant > 0 ==> h.shadow < h.top && 1 <= h.bottom)
  }

  /** Hills come in line order and do not overlap. */
  predicate Ordered(hills: seq<Hill>)
  {
    forall k, l :: 0 <= k < l < |hills| ==> hills[k].last < hills[l].first
  }

  function SumVacant(hills: seq<Hill>): int
  {
    if |hills| == 0 then 0 else SumVacant(hills[..|hills| - 1]) + hills[|hills| - 1].vacant
  }

  /** The hills found in the first n cells of a line of the given size. */
  predicate HillsOk(hills: seq<Hill>, n: int, size: int)
  {
    (forall k :: 0 <= k < |hills| ==> HillOk(hills[k], size) && hills[k].last < n) &&
    Ordered(hills) && 2 * |hills| <= n + 1
  }

  /** The action bit of the next cell of a hill with k cells. */
  function Probe(k: int): Bits
    requires 0 <= k <= 8
  {
    if k < 8 then Bit(k + 1) else 0
  }

  /** Every hill of the list is well formed. */
  predicate AllOk(hills: seq<Hill>, size: int)
  {
    forall k :: 0 <= k < |hills| ==> HillOk(hills[k], size)
  }

  /** The state of the scan after n cells of a line of the given size. */
  predicate Inv(s: Scan, n: int, size: int)
  {
    1 <= size <= 8 && 0 <= n <= size && 0 <= s.hillSize && 2 * |s.closed| + s.hillSize <= n &&
    0 <= s.visible && 0 <= s.bottomLimit &&
    AllOk(s.closed, size) && Ordered(s.closed) &&
    (|s.closed| > 0 ==> s.closed[|s.closed| - 1].last + 1 < (if s.hillSize > 0 then s.cur.first else n)) &&
    CurOk(s, n, size) &&
    s.vacant == SumVacant(s.closed) + s.cur.vacant
  }

  /** The hill being built: its cells so far, its action mask and its bounds. */
  predicate CurOk(s: Scan, n: int, size: int)
  {
    0 <= s.hillSize <= 8 &&
    (s.hillSize > 0 ==> 0 <= s.cur.first && s.cur.first + s.hillSize <= n) &&
    (s.hillSize == 0 ==> s.cur == Blank.(top := s.cur.top)) &&
    Within(s.cur.actionMask, LowMask(s.hillSize)) &&
    PopCount(s.cur.actionMask, s.hillSize) == s.cur.vacant &&
    s.bit == Probe(s.hillSize) &&
    0 <= s.cur.shadow && 0 <= s.cur.top <= size && 0 <= s.cur.bottom &&
    (s.cur.vacant > 0 ==> s.cur.shadow < s.cur.top && 1 <= s.cur.bottom)
  }

  lemma SumVacantAppend(hills: seq<Hill>, h: Hill)
    ensures SumVacant(hills + [h]) == SumVacant(hills) + h.vacant
  {
    assert (hills + [h])[..|hills|] == hills;
  }

  lemma AllOkAppend(hills: seq<Hill>, h: Hill, size: int)
    requires AllOk(hills, size) && HillOk(h, size)
    ensures AllOk(hills + [h], size)
  {
    var r := hills + [h];
    forall k | 0 <= k < |r| ensures HillOk(r[k], size) {
      if k < |hills| {
        assert r[k] == hills[k];
      }
    }
  }

  /** In an ordered list of well-formed hills, every hill ends where the last one does or before. */
  lemma {:induction false} EndsBefore(hills: seq<Hill>, n: int, size: int)
    requires AllOk(hills, size) && Ordered(hills)
    requires |hills| > 0 ==> hills[|hills| - 1].last < n
    ensures forall k :: 0 <= k < |hills| ==> hills[k].last < n
  {
    forall k | 0 <= k < |hills| ensures hills[k].last < n {
      if k < |hills| - 1 {
        assert HillOk(hills[|hills| - 1], size);
        assert hills[k].last < hills[|hills| - 1].first;
      }
    }
  }

  /** A hill placed after the last of an ordered list keeps it ordered. */
  lemma OrderedAppend(hills: seq<Hill>, h: Hill, size: int)
    requires Ordered(hills) && AllOk(hills, size)
    requires |hills| > 0 ==> hills[|hills| - 1].last < h.first
    ensures Ordered(hills + [h])
  {
    var r := hills + [h];
    forall k, l | 0 <= k < l < |r| ensures r[k].last < r[l].first {
      if l == |hills| && k < |hills| - 1 {
        assert HillOk(hills[|hills| - 1], size);
        assert hills[k].last < hills[|hills| - 1].first;
      }
    }
  }

  /** The open hill, once closed, is well formed and follows the closed ones. */
  lemma FinishedOk(s: Scan, n: int, size: int)
    requires Inv(s, n, size) && s.hillSize > 0
    ensures HillOk(Finished(s), size) && Finished(s).last < n
    ensures AllOk(s.closed + [Finished(s)], size)
    ensures Ordered(s.closed + [Finished(s)])
    ensures SumVacant(s.closed + [Finished(s)]) == s.vacant
  {
    var f := Finished(s);
    assert f.last - f.first + 1 == s.hillSize;
    assert HillOk(f, size);
    AllOkAppend(s.closed, f, size);
    OrderedAppend(s.closed, f, size);
    SumVacantAppend(s.closed, f);
  }

  /** A taller resolved cell keeps the invariant. */
  lemma TallerInv(s: Scan, n: int, size: int, h: int)
    requires Inv(s, n, size) && n < size && 0 <= h < size && h > s.cur.top
    ensures Inv(Taller(s, h), n + 1, size)
  {
    BitIsProbe(0);
    if s.hillSize > 0 {
      FinishedOk(s, n, size);
    }
  }

  lemma BitIsProbe(k: int)
    requires 0 <= k <= 7
    ensures Probe(k) == Bit(k + 1)
  {}

  /** After a counting step the action bit moves to the next cell. */
  lemma ProbeNext(k: int)
    requires 0 <= k <= 7
    ensures Probe(k) << 1 == Probe(k + 1)
  {
    if k < 7 {
      ShiftLeftBit(k + 1);
    }
  }

  /** A cell that joins the hill keeps the invariant. */
  lemma CountedInv(s: Scan, lo: int, hi: int, n: int, size: int)
    requires Inv(s, n, size) && n < size && 1 <= lo <= hi <= size
    ensures Inv(Counted(s, lo, hi, n), n + 1, size)
  {
    CountedMask(s, lo, hi, n, size);
    CountedBounds(s, lo, hi, n, size);
    CountedClosed(s, lo, hi, n, size);
  }

  /** A joining cell's action bit is set exactly when it is vacant. */
  lemma CountedMask(s: Scan, lo: int, hi: int, n: int, size: int)
    requires 1 <= size <= 8 && 0 <= s.hillSize <= 7
    requires Within(s.cur.actionMask, LowMask(s.hillSize))
    requires PopCount(s.cur.actionMask, s.hillSize) == s.cur.vacant
    requires s.bit == Probe(s.hillSize)
    ensures var r := Counted(s, lo, hi, n);
      r.hillSize == s.hillSize + 1 &&
      Within(r.cur.actionMask, LowMask(r.hillSize)) &&
      PopCount(r.cur.actionMask, r.hillSize) == r.cur.vacant &&
      r.bit == Probe(r.hillSize)
  {
    CountedFields(s, lo, hi, n);
    MaskStep(s.cur.actionMask, s.hillSize, s.cur.vacant, Rises(s, hi, n));
  }

  /** The action-mask fields after a joining cell. */
  lemma CountedFields(s: Scan, lo: int, hi: int, n: int)
    ensures var r := Counted(s, lo, hi, n);
      r.hillSize == s.hillSize + 1 && r.bit == s.bit << 1 &&
      r.cur.actionMask == (if Rises(s, hi, n) then s.cur.actionMask | s.bit else s.cur.actionMask) &&
      r.cur.vacant == (if Rises(s, hi, n) then s.cur.vacant + 1 else s.cur.vacant)
  {}

  /** One more cell in a hill of k cells, vacant or not. */
  lemma MaskStep(am: Bits, k: int, vacant: int, rises: bool)
    requires 0 <= k <= 7 && Within(am, LowMask(k)) && PopCount(am, k) == vacant
    ensures var am2 := if rises then am | Probe(k) else am;
      Within(am2, LowMask(k + 1)) &&
      PopCount(am2, k + 1) == (if rises then vacant + 1 else vacant) &&
      Probe(k) << 1 == Probe(k + 1)
  {
    ProbeNext(k);
    BitIsProbe(k);
    if rises {
      AddTopBit(am, k);
    } else {
      SkipTopBit(am, k);
    }
  }

  /** A joining cell keeps the hill's cells and bounds in range. */
  lemma CountedBounds(s: Scan, lo: int, hi: int, n: int, size: int)
    requires 1 <= lo <= hi <= size <= 8 && 0 <= s.hillSize <= n < size && CurOk(s, n, size) && 0 <= s.bottomLimit
    ensures var r := Counted(s, lo, hi, n);
      0 <= r.cur.first && r.cur.first + r.hillSize <= n + 1 &&
      0 <= r.cur.shadow && 0 <= r.cur.top <= size && 0 <= r.cur.bottom &&
      (r.cur.vacant > 0 ==> r.cur.shadow < r.cur.top && 1 <= r.cur.bottom) &&
      0 <= r.bottomLimit && r.hillSize <= 8
  {}

  /** A joining cell leaves the finished hills alone and adds its vacancy to the total. */
  lemma CountedClosed(s: Scan, lo: int, hi: int, n: int, size: int)
    requires 0 <= s.hillSize && 2 * |s.closed| + s.hillSize <= n
    requires s.hillSize > 0 ==> s.cur.first + s.hillSize <= n
    requires |s.closed| > 0 ==> s.closed[|s.closed| - 1].last + 1 < (if s.hillSize > 0 then s.cur.first else n)
    requires s.vacant == SumVacant(s.closed) + s.cur.vacant
    ensures var r := Counted(s, lo, hi, n);
      r.closed == s.closed && r.visible == s.visible && r.stopped == s.stopped &&
      2 * |r.closed| + r.hillSize <= n + 1 &&
      (|r.closed| > 0 ==> r.closed[|r.closed| - 1].last + 1 < r.cur.first) &&
      r.vacant == SumVacant(r.closed) + r.cur.vacant
  {}

  /** Every step keeps the invariant, for well-formed cells. */
  lemma StepInv(s: Scan, t: Tower, n: int, size: int)
    requires Inv(s, n, size) && n < size && Ok(t, size)
    ensures Inv(Step(s, t, n, size), n + 1, size)
  {
    if s.stopped || t.height == size {
    } else if t.height > s.cur.top {
      TallerInv(s, n, size, t.height);
    } else if t.height != 0 && s.hillSize == 0 {
    } else {
      MinMaxOfCell(t, size);
      CountedInv(s, MinHeight(t.options, size), MaxHeight(t.options, size), n, size);
    }
  }

  lemma {:induction false} ScanInv(cells: seq<Tower>, n: int, size: int)
    requires 1 <= size <= 8 && |cells| == size && 0 <= n <= size
    requires forall i :: 0 <= i < size ==> Ok(cells[i], size)
    ensures Inv(ScanUpTo(cells, n, size), n, size)
  {
    if n > 0 {
      ScanInv(cells, n - 1, size);
      StepInv(ScanUpTo(cells, n - 1, size), cells[n - 1], n - 1, size);
    }
  }

  /**
   * The hills of the first n cells of a line of well-formed cells are in line
   * order, disjoint, well formed and at most (n + 1) / 2 many, every one ends
   * before n, and their vacant counts add up to the scan's vacant total.
   */
  lemma ScanHillsOk(cells: seq<Tower>, n: int, size: int)
    requires 1 <= size <= 8 && |cells| == size && 0 <= n <= size
    requires forall i :: 0 <= i < size ==> Ok(cells[i], size)
    ensures HillsOk(Close(ScanUpTo(cells, n, size)), n, size)
    ensures SumVacant(Close(ScanUpTo(cells, n, size))) == ScanUpTo(cells, n, size).vacant
    ensures 0 <= ScanUpTo(cells, n, size).visible
  {
    ScanInv(cells, n, size);
    CloseOk(ScanUpTo(cells, n, size), n, size);
  }

  /** Every hill the scan of the first n cells finds is well formed. */
  lemma ScanAllOk(cells: seq<Tower>, n: int, size: int)
    requires 1 <= size <= 8 && |cells| == size && 0 <= n <= size
    requires forall i :: 0 <= i < size ==> Ok(cells[i], size)
    ensures AllOk(Close(ScanUpTo(cells, n, size)), size)
  {
    ScanHillsOk(cells, n, size);
  }

  /** Closing the open hill at the end of the scan keeps the hills well formed. */
  lemma CloseOk(s: Scan, n: int, size: int)
    requires Inv(s, n, size)
    ensures HillsOk(Close(s), n, size)
    ensures SumVacant(Close(s)) == s.vacant
    ensures 0 <= s.visible
  {
    if s.hillSize > 0 {
      FinishedOk(s, n, size);
    }
    EndsBefore(Close(s), n, size);
  }

  /** Once a cell of the tallest height has stopped the scan, later cells change nothing. */
  lemma {:induction false} StoppedStays(cells: seq<Tower>, i: int, n: int, size: int)
    requires 0 <= i <= n <= |cells| && 0 <= size <= 8 && ScanUpTo(cells, i, size).stopped
    ensures ScanUpTo(cells, n, size) == ScanUpTo(cells, i, size)
  {
    if i < n {
      StoppedStays(cells, i, n - 1, size);
    }
  }

  // The four ways Step can go, one lemma each, so that a caller reasons about
  // one branch's result rather than about the whole of Step.

  lemma StepTallest(s: Scan, t: Tower, i: int, size: int)
    requires 0 <= size <= 8 && !s.stopped && t.height == size
    ensures Step(s, t, i, size) == s.(visible := s.visible + 1, stopped := true)
  {}

  lemma StepTaller(s: Scan, t: Tower, i: int, size: int)
    requires 0 <= size <= 8 && !s.stopped && t.height != size && t.height > s.cur.top
    ensures Step(s, t, i, size) == Taller(s, t.height)
  {}

  lemma StepSkip(s: Scan, t: Tower, i: int, size: int)
    requires 0 <= size <= 8 && !s.stopped && t.height != size && t.height <= s.cur.top
    requires t.height != 0 && s.hillSize == 0
    ensures Step(s, t, i, size) == s
  {}

  lemma StepCounted(s: Scan, t: Tower, i: int, size: int)
    requires 0 <= size <= 8 && !s.stopped && t.height != size && t.height <= s.cur.top
    requires t.height == 0 || s.hillSize != 0
    ensures Step(s, t, i, size) == Counted(s, MinHeight(t.options, size), MaxHeight(t.options, size), i)
  {}

  /** A joining cell that rises: the hill's bounds, vacancy and action mask grow. */
  lemma CountedRises(s: Scan, bottom: int, top: int, i: int, h: Hill)
    requires h == Joined(s, i) && Rises(s, top, i)
    ensures Counted(s, bottom, top, i).cur == Raised(h, bottom, top, s.bit)
    ensures Counted(s, bottom, top, i).bottomLimit == Max(Limit(s) + 1, bottom)
    ensures Counted(s, bottom, top, i).closed == s.closed
  {}

  /** A joining cell that does not rise only lengthens the hill. */
  lemma CountedFlat(s: Scan, bottom: int, top: int, i: int, h: Hill)
    requires h == Joined(s, i) && !Rises(s, top, i)
    ensures Counted(s, bottom, top, i).cur == h
    ensures Counted(s, bottom, top, i).bottomLimit == Limit(s)
    ensures Counted(s, bottom, top, i).closed == s.closed
  {}

  /** One more cell of the scan. */
  lemma ScanNext(cells: seq<Tower>, i: int, size: int)
    requires 0 <= i < |cells| && 0 <= size <= 8
    ensures ScanUpTo(cells, i + 1, size) == Step(ScanUpTo(cells, i, size), cells[i], i, size)
  {}

  // ---------------------------------------------------------------------------
  // Which cells the action mask marks.

  /**
   * Cell i is counted vacant at its scan step: its tallest option Rises over
   * the state the cells before it left.
   */
  predicate Vacant(cells: seq<Tower>, i: int, size: int)
    requires 0 <= i < |cells| && 0 <= size <= 8
  {
    Rises(ScanUpTo(cells, i, size), MaxHeight(cells[i].options, size), i)
  }

  /** Which of the first n cells are counted vacant, in line order. */
  function Vacancies(cells: seq<Tower>, n: int, size: int): (v: seq<bool>)
    requires 0 <= n <= |cells| && 0 <= size <= 8
    ensures |v| == n
  {
    if n == 0 then [] else Vacancies(cells, n - 1, size) + [Vacant(cells, n - 1, size)]
  }

  lemma {:induction false} VacanciesAt(cells: seq<Tower>, n: int, size: int, i: int)
    requires 0 <= i < n <= |cells| && 0 <= size <= 8
    ensures Vacancies(cells, n, size)[i] == Vacant(cells, i, size)
  {
    if i < n - 1 {
      VacanciesAt(cells, n - 1, size, i);
    }
  }

  /** Among the cells of h, the action mask of h marks exactly those v flags. */
  predicate Marks(v: seq<bool>, h: Hill)
  {
    0 <= h.first && h.last < |v| &&
    forall i :: h.first <= i <= h.last ==> (Has(h.actionMask, i - h.first + 1) <==> v[i])
  }

  /** Every finished hill of the scan, and the open one once closed, marks the cells v flags. */
  predicate ScanMarks(v: seq<bool>, s: Scan)
  {
    (forall k :: 0 <= k < |s.closed| ==> Marks(v, s.closed[k])) &&
    (s.hillSize > 0 ==> Marks(v, Finished(s)))
  }

  /** While the scan runs, the open hill reaches up to the cell before the n-th. */
  predicate Flush(s: Scan, n: int)
  {
    0 <= s.hillSize && (!s.stopped && s.hillSize > 0 ==> s.cur.first + s.hillSize == n)
  }

  /** Flags for later cells leave the marks of the hills so far alone. */
  lemma MarksGrow(v: seq<bool>, b: bool, s: Scan)
    requires ScanMarks(v, s)
    ensures ScanMarks(v + [b], s)
  {
    forall h: Hill | Marks(v, h) ensures Marks(v + [b], h) {
      assert forall i :: h.first <= i <= h.last ==> (v + [b])[i] == v[i];
    }
  }

  /** Closing the open hill before a taller cell keeps every hill's marks. */
  lemma TallerMarks(v: seq<bool>, s: Scan, h: int)
    requires 0 <= s.hillSize && ScanMarks(v, s)
    ensures ScanMarks(v, Taller(s, h))
  {
    var r := Taller(s, h);
    if s.hillSize != 0 {
      forall k | 0 <= k < |r.closed| ensures Marks(v, r.closed[k]) {
        if k < |s.closed| {
          assert r.closed[k] == s.closed[k] && Marks(v, s.closed[k]);
        } else {
          assert r.closed[k] == Finished(s) && Marks(v, Finished(s));
        }
      }
    }
  }

  /** Setting bit k + 1 of a mask m inside 1..k, or not: the lower bits stay, bit k + 1 says which. */
  lemma MarkNext(m: Bits, k: int, mark: bool, r: Bits)
    requires 0 <= k < 8 && Within(m, LowMask(k)) && r == if mark then m | Bit(k + 1) else m
    ensures forall j :: 1 <= j <= k + 1 ==> Has(r, j) == if j <= k then Has(m, j) else mark
  {
    WithinLowMiss(m, k);
    forall j | 1 <= j <= k + 1 ensures Has(r, j) == if j <= k then Has(m, j) else mark {
      OrBitBelow(m, k + 1, j);
    }
  }

  /** The hill h of k cells before index n, grown by the cell at n into f, marked when it rises. */
  lemma ExtendMarks(v: seq<bool>, h: Hill, k: int, f: Hill, rises: bool, n: int)
    requires |v| == n && 0 <= k < 8 && Within(h.actionMask, LowMask(k))
    requires 0 <= f.first && f.first + k == n && f.last == n
    requires f.actionMask == if rises then h.actionMask | Bit(k + 1) else h.actionMask
    requires k > 0 ==> h.first == f.first && h.last == n - 1 && Marks(v, h)
    ensures Marks(v + [rises], f)
  {
    MarkNext(h.actionMask, k, rises, f.actionMask);
    forall i | f.first <= i <= f.last ensures Has(f.actionMask, i - f.first + 1) <==> (v + [rises])[i] {
      ExtendAt(v, h, k, f, rises, n, i);
    }
  }

  lemma ExtendAt(v: seq<bool>, h: Hill, k: int, f: Hill, rises: bool, n: int, i: int)
    requires |v| == n && 0 <= k < 8 && 0 <= f.first && f.first + k == n && f.first <= i <= n
    requires forall j :: 1 <= j <= k + 1 ==> Has(f.actionMask, j) == if j <= k then Has(h.actionMask, j) else rises
    requires k > 0 ==> h.first == f.first && h.last == n - 1 && Marks(v, h)
    ensures Has(f.actionMask, i - f.first + 1) <==> (v + [rises])[i]
  {
    var j := i - f.first + 1;
    assert Has(f.actionMask, j) == if j <= k then Has(h.actionMask, j) else rises;
    if i < n {
      assert (v + [rises])[i] == v[i];
    } else {
      assert (v + [rises])[i] == rises;
    }
  }

  /** What a joining cell at index n does to the scan's hills. */
  lemma CountedShape(s: Scan, bottom: int, top: int, n: int)
    ensures Counted(s, bottom, top, n).closed == s.closed
    ensures Counted(s, bottom, top, n).hillSize == s.hillSize + 1
    ensures Counted(s, bottom, top, n).cur.first == (if s.hillSize == 0 then n else s.cur.first)
    ensures Counted(s, bottom, top, n).cur.actionMask ==
      if Rises(s, top, n) then s.cur.actionMask | s.bit else s.cur.actionMask
  {}

  /** A joining cell at index n, taking the scan from s to c, gets the bit of its place in the hill exactly when it rises. */
  lemma CountedMarks(v: seq<bool>, s: Scan, c: Scan, rises: bool, n: int)
    requires |v| == n && 0 <= s.hillSize < 8 && s.bit == Bit(s.hillSize + 1)
    requires Within(s.cur.actionMask, LowMask(s.hillSize))
    requires s.hillSize > 0 ==> 0 <= s.cur.first && s.cur.first + s.hillSize == n
    requires 0 <= n && ScanMarks(v, s)
    requires c.closed == s.closed && c.hillSize == s.hillSize + 1
    requires c.cur.first == (if s.hillSize == 0 then n else s.cur.first)
    requires c.cur.actionMask == if rises then s.cur.actionMask | s.bit else s.cur.actionMask
    ensures ScanMarks(v + [rises], c)
  {
    MarksGrow(v, rises, s);
    ExtendMarks(v, Finished(s), s.hillSize, Finished(c), rises, n);
  }

  /** One more cell keeps every hill's marks; b flags whether the cell is counted vacant. */
  lemma StepMarks(v: seq<bool>, s: Scan, t: Tower, n: int, size: int, b: bool)
    requires size <= 8 && n < size && CurOk(s, n, size) && |v| == n && ScanMarks(v, s) && Flush(s, n)
    requires b == Rises(s, MaxHeight(t.options, size), n)
    ensures ScanMarks(v + [b], Step(s, t, n, size)) && Flush(Step(s, t, n, size), n + 1)
  {
    MarksGrow(v, b, s);
    if s.stopped || t.height == size {
    } else if t.height > s.cur.top {
      TallerMarks(v + [b], s, t.height);
    } else if t.height != 0 && s.hillSize == 0 {
    } else {
      assert s.bit == Probe(s.hillSize) && Within(s.cur.actionMask, LowMask(s.hillSize));
      var top := MaxHeight(t.options, size);
      CountedShape(s, MinHeight(t.options, size), top, n);
      CountedMarks(v, s, Counted(s, MinHeight(t.options, size), top, n), b, n);
    }
  }

  lemma MarksStep(cells: seq<Tower>, n: int, size: int)
    requires 1 <= size <= 8 && |cells| == size && 0 < n <= size
    requires Inv(ScanUpTo(cells, n - 1, size), n - 1, size)
    requires ScanMarks(Vacancies(cells, n - 1, size), ScanUpTo(cells, n - 1, size)) && Flush(ScanUpTo(cells, n - 1, size), n - 1)
    ensures ScanMarks(Vacancies(cells, n, size), ScanUpTo(cells, n, size)) && Flush(ScanUpTo(cells, n, size), n)
  {
    StepMarks(Vacancies(cells, n - 1, size), ScanUpTo(cells, n - 1, size), cells[n - 1], n - 1, size, Vacant(cells, n - 1, size));
  }

  lemma {:induction false} ScanMarksUpTo(cells: seq<Tower>, n: int, size: int)
    requires 1 <= size <= 8 && |cells| == size && 0 <= n <= size
    requires forall i :: 0 <= i < size ==> Ok(cells[i], size)
    ensures ScanMarks(Vacancies(cells, n, size), ScanUpTo(cells, n, size)) && Flush(ScanUpTo(cells, n, size), n)
  {
    if n > 0 {
      ScanMarksUpTo(cells, n - 1, size);
      ScanInv(cells, n - 1, size);
      MarksStep(cells, n, size);
    }
  }

  /**
   * update_hill's action mask: in every hill the scan of the first n cells
   * finds, the bit of each cell's place in the hill is set exactly when that
   * cell was counted vacant.
   */
  lemma ActionMarksVacant(cells: seq<Tower>, n: int, size: int, hills: seq<Hill>, k: int, i: int)
    requires 1 <= size <= 8 && |cells| == size && 0 <= n <= size
    requires forall j :: 0 <= j < size ==> Ok(cells[j], size)
    requires hills == Close(ScanUpTo(cells, n, size)) && 0 <= k < |hills| && hills[k].first <= i <= hills[k].last
    ensures 0 <= i < n
    ensures Has(hills[k].actionMask, i - hills[k].first + 1) <==> Vacant(cells, i, size)
  {
    var s := ScanUpTo(cells, n, size);
    var v := Vacancies(cells, n, size);
    ScanMarksUpTo(cells, n, size);
    CloseMarks(v, s, k);
    assert Has(hills[k].actionMask, i - hills[k].first + 1) == v[i];
    VacanciesAt(cells, n, size, i);
  }

  /** The hills at the end of the scan mark what the scan's hills mark. */
  lemma CloseMarks(v: seq<bool>, s: Scan, k: int)
    requires 0 <= s.hillSize && ScanMarks(v, s) && 0 <= k < |Close(s)|
    ensures Marks(v, Close(s)[k])
  {
    if k < |s.closed| {
      assert Close(s)[k] == s.closed[k];
    } else {
      assert Close(s)[k] == Finished(s);
    }
  }
}
