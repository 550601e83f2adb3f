/**
 * Checking one line of the grid against its clue (check_info_add and
 * check_valid in src/core/street.c; view_info_add and the per-line part of
 * city_is_valid in src/core/city.c, which repeat the same accumulation).
 *
 * Walking the line from its near end, the accumulator keeps the tallest
 * resolved height met so far, how many resolved cells were seen over their
 * predecessors, how many unresolved cells come before any resolved one
 * (foreground) or after one while the tallest possible height is not yet
 * reached (offstage), and the XOR of the candidate masks of resolved cells,
 * which reveals a repeated height.
 */
module Views {
  import opened Bitmask
  import opened Towers

  datatype Info = Info(highest: int, visible: int, foreground: int, offstage: int, valid: bool, options: Bits)

  /** check_info_reset / view_info_reset. */
  const Reset := Info(0, 0, 0, 0, true, 0)

  /**
   * check_info_add / view_info_add: one more cell of the line, written field by
   * field.  A resolved cell toggles its candidates into the mask and must find
   * them set afterwards; an unresolved one is foreground before any resolved
   * cell and offstage after one, until the tallest height has been met.
   */
  function Add(info: Info, t: Tower, size: int): Info
  {
    var options := if t.height != 0 then info.options ^ t.options else info.options;
    var valid := info.valid && t.options != 0 && (t.height == 0 || options & t.options != 0);
    var unresolvedInView := t.height == 0 && info.highest < size;
    var foreground := if unresolvedInView && info.highest == 0 then info.foreground + 1 else info.foreground;
    var offstage := if unresolvedInView && info.highest != 0 then info.offstage + 1 else info.offstage;
    var visible := if info.highest < t.height then info.visible + 1 else info.visible;
    var highest := if info.highest < t.height then t.height else info.highest;
    Info(highest, visible, foreground, offstage, valid, options)
  }

  /** The accumulator after the first n cells. */
  function Collect(cells: seq<Tower>, n: int, size: int): Info
    requires 0 <= n <= |cells|
  {
    if n == 0 then Reset else Add(Collect(cells, n - 1, size), cells[n - 1], size)
  }

  /** The verdict of check_valid on a line with this clue. */
  predicate LineOk(cells: seq<Tower>, clue: int, size: int)
  {
    var info := Collect(cells, |cells|, size);
    info.valid &&
    (clue == 0 ||
     (info.visible <= clue + info.foreground + info.offstage &&
      clue <= info.visible + info.foreground + info.offstage))
  }

  /** The verdict of city_is_valid on one line: LineOk and a third check. */
  predicate ViewOk(cells: seq<Tower>, clue: int, size: int)
  {
    var info := Collect(cells, |cells|, size);
    LineOk(cells, clue, size) &&
    (clue == 0 || !(info.visible + info.foreground == 0 && info.offstage != clue))
  }

  // ---------------------------------------------------------------------------
  // What the accumulator computes.

  /** A cell whose resolved height, if any, lies in 1..size and is its only candidate. */
  predicate Sound(t: Tower, size: int)
  {
    1 <= size <= 8 && 0 <= t.height <= size && (t.height != 0 ==> SingleHeight(t.options, size) == t.height)
  }

  lemma OkIsSound(t: Tower, size: int)
    requires Ok(t, size)
    ensures Sound(t, size)
  {}

  /** No two resolved cells among the first n share a height. */
  predicate DistinctHeights(cells: seq<Tower>, n: int)
    requires 0 <= n <= |cells|
  {
    forall i, j :: 0 <= i < j < n && cells[i].height != 0 ==> cells[i].height != cells[j].height
  }

  /** None of the first n cells has an empty candidate set. */
  predicate NoneEmpty(cells: seq<Tower>, n: int)
    requires 0 <= n <= |cells|
  {
    forall i :: 0 <= i < n ==> cells[i].options != 0
  }

  /** Some resolved cell among the first n has height h. */
  predicate Seen(cells: seq<Tower>, n: int, h: int)
    requires 0 <= n <= |cells|
  {
    exists i :: 0 <= i < n && cells[i].height == h
  }

  /**
   * For sound cells the accumulator's validity is exactly "no empty candidate
   * set and no repeated resolved height"; while valid, its XOR mask holds
   * exactly the heights seen.
   */
  lemma {:induction false} CollectValid(cells: seq<Tower>, n: int, size: int)
    requires 0 <= n <= |cells|
    requires forall i :: 0 <= i < |cells| ==> Sound(cells[i], size)
    ensures Collect(cells, n, size).valid <==> NoneEmpty(cells, n) && DistinctHeights(cells, n)
    ensures Collect(cells, n, size).valid ==>
              forall h :: 1 <= h <= 8 ==> (Has(Collect(cells, n, size).options, h) <==> Seen(cells, n, h))
  {
    if n > 0 {
      CollectValid(cells, n - 1, size);
      var info := Collect(cells, n - 1, size);
      var t := cells[n - 1];
      if t.height != 0 {
        SingleHeightMeaning(t.options, size);
        ValidStep(cells, n, size, info);
      } else {
        UnresolvedStep(cells, n);
        SeenStep(cells, n);
      }
    }
  }

  /** The step of CollectValid for a resolved cell: the XOR mask flags a repeat. */
  lemma ValidStep(cells: seq<Tower>, n: int, size: int, info: Info)
    requires 1 <= n <= |cells| && info == Collect(cells, n - 1, size)
    requires cells[n - 1].height != 0 && 1 <= cells[n - 1].height <= 8
    requires cells[n - 1].options == Bit(cells[n - 1].height)
    requires info.valid <==> NoneEmpty(cells, n - 1) && DistinctHeights(cells, n - 1)
    requires info.valid ==> forall h :: 1 <= h <= 8 ==> (Has(info.options, h) <==> Seen(cells, n - 1, h))
    ensures Collect(cells, n, size).valid <==> NoneEmpty(cells, n) && DistinctHeights(cells, n)
    ensures Collect(cells, n, size).valid ==>
              forall h :: 1 <= h <= 8 ==> (Has(Collect(cells, n, size).options, h) <==> Seen(cells, n, h))
  {
    var k := cells[n - 1].height;
    var r := Collect(cells, n, size);
    AddResolved(info, cells[n - 1], size);
    XorFacts(info.options, k);
    DistinctStep(cells, n);
    SeenStep(cells, n);
    if r.valid {
      assert info.valid && !Has(info.options, k);
      forall h | 1 <= h <= 8 ensures Has(r.options, h) <==> Seen(cells, n, h) {
        ToggleAt(info.options, k, h);
        assert Has(info.options, h) <==> Seen(cells, n - 1, h);
      }
    }
  }

  /** Adding a resolved cell toggles its candidates into the mask and checks them. */
  lemma AddResolved(info: Info, t: Tower, size: int)
    requires t.height != 0
    ensures Add(info, t, size).options == info.options ^ t.options
    ensures Add(info, t, size).valid ==
              (info.valid && t.options != 0 && (info.options ^ t.options) & t.options != 0)
  {}

  /** Toggling the bit of height k: it is set afterwards exactly when it was clear before. */
  lemma XorFacts(o: Bits, k: int)
    requires 1 <= k <= 8
    ensures Bit(k) != 0
    ensures (o ^ Bit(k)) & Bit(k) != 0 <==> !Has(o, k)
  {
    BitNonZero(k);
    ToggleAt(o, k, k);
  }

  /** Toggling the bit of height k changes height h exactly when h is k. */
  lemma ToggleAt(o: Bits, k: int, h: int)
    requires 1 <= k <= 8 && 1 <= h <= 8
    ensures Has(o ^ Bit(k), h) <==> (Has(o, h) != (h == k))
  {
    XorHas(o, Bit(k), h);
    BitHas(k, h);
  }

  /** A resolved last cell keeps the heights distinct exactly when its height is new. */
  lemma DistinctStep(cells: seq<Tower>, n: int)
    requires 1 <= n <= |cells| && cells[n - 1].height != 0
    ensures DistinctHeights(cells, n) <==>
            DistinctHeights(cells, n - 1) && !Seen(cells, n - 1, cells[n - 1].height)
    ensures NoneEmpty(cells, n) <==> NoneEmpty(cells, n - 1) && cells[n - 1].options != 0
  {
    var k := cells[n - 1].height;
    if DistinctHeights(cells, n - 1) && !Seen(cells, n - 1, k) {
      forall i, j | 0 <= i < j < n && cells[i].height != 0 ensures cells[i].height != cells[j].height {
        if j == n - 1 {
          assert !(cells[i].height == k);
        }
      }
    }
    if Seen(cells, n - 1, k) {
      var i :| 0 <= i < n - 1 && cells[i].height == k;
      assert !(cells[i].height != cells[n - 1].height);
    }
  }

  /** An unresolved last cell changes neither distinctness nor the heights seen. */
  lemma UnresolvedStep(cells: seq<Tower>, n: int)
    requires 1 <= n <= |cells| && cells[n - 1].height == 0
    ensures DistinctHeights(cells, n) <==> DistinctHeights(cells, n - 1)
    ensures NoneEmpty(cells, n) <==> NoneEmpty(cells, n - 1) && cells[n - 1].options != 0
  {}

  lemma SeenStep(cells: seq<Tower>, n: int)
    requires 1 <= n <= |cells|
    ensures forall h :: Seen(cells, n, h) <==> Seen(cells, n - 1, h) || cells[n - 1].height == h
  {
    forall h | Seen(cells, n, h) ensures Seen(cells, n - 1, h) || cells[n - 1].height == h {
      var i :| 0 <= i < n && cells[i].height == h;
      if i < n - 1 {
        assert Seen(cells, n - 1, h);
      }
    }
  }

  // ---------------------------------------------------------------------------
  // Visible buildings.

  /** Cell i is resolved and taller than every cell before it. */
  predicate SeenOver(cells: seq<Tower>, i: int)
    requires 0 <= i < |cells|
  {
    cells[i].height > 0 && forall j :: 0 <= j < i ==> cells[j].height < cells[i].height
  }

  /** How many of the first n cells are SeenOver: the buildings visible from the near end. */
  function CountVisible(cells: seq<Tower>, n: int): (c: int)
    requires 0 <= n <= |cells|
    ensures 0 <= c <= n
  {
    if n == 0 then 0 else CountVisible(cells, n - 1) + (if SeenOver(cells, n - 1) then 1 else 0)
  }

  /**
   * The accumulator's highest is the tallest resolved height among the first n
   * cells (0 if none) and its visible count is CountVisible.
   */
  lemma {:induction false} CollectVisible(cells: seq<Tower>, n: int, size: int)
    requires 0 <= n <= |cells|
    requires forall i :: 0 <= i < |cells| ==> cells[i].height >= 0
    ensures Collect(cells, n, size).visible == CountVisible(cells, n)
    ensures forall j :: 0 <= j < n ==> cells[j].height <= Collect(cells, n, size).highest
    ensures Collect(cells, n, size).highest == 0 ||
            exists j :: 0 <= j < n && cells[j].height == Collect(cells, n, size).highest
  {
    if n > 0 {
      CollectVisible(cells, n - 1, size);
      var h := Collect(cells, n - 1, size).highest;
      var t := cells[n - 1];
      assert SeenOver(cells, n - 1) <==> h < t.height by {
        if h < t.height {
          assert forall j :: 0 <= j < n - 1 ==> cells[j].height < t.height;
        }
        if SeenOver(cells, n - 1) && h != 0 {
          var j :| 0 <= j < n - 1 && cells[j].height == h;
        }
      }
      if h < t.height {
        assert cells[n - 1].height == Collect(cells, n, size).highest;
      }
    }
  }

  /** Foreground and offstage only count unresolved cells. */
  lemma {:induction false} CollectResolvedLine(cells: seq<Tower>, n: int, size: int)
    requires 0 <= n <= |cells|
    requires forall i :: 0 <= i < n ==> cells[i].height != 0
    ensures Collect(cells, n, size).foreground == 0 && Collect(cells, n, size).offstage == 0
  {
    if n > 0 {
      CollectResolvedLine(cells, n - 1, size);
    }
  }

  /** The first cell is always visible or foreground. */
  lemma {:induction false} CollectFront(cells: seq<Tower>, n: int, size: int)
    requires 1 <= n <= |cells| && 1 <= size
    requires forall i :: 0 <= i < |cells| ==> cells[i].height >= 0
    ensures Collect(cells, n, size).visible + Collect(cells, n, size).foreground >= 1
  {
    if n > 1 {
      CollectFront(cells, n - 1, size);
    }
  }

  /**
   * The third check of city_is_valid (src/core/city.c:290) never rejects a
   * nonempty line, so ViewOk and LineOk agree.
   */
  lemma ThirdCheckRedundant(cells: seq<Tower>, clue: int, size: int)
    requires 1 <= |cells| && 1 <= size
    requires forall i :: 0 <= i < |cells| ==> cells[i].height >= 0
    ensures ViewOk(cells, clue, size) == LineOk(cells, clue, size)
  {
    CollectFront(cells, |cells|, size);
  }

  /**
   * On a line whose cells are all resolved, the check accepts exactly when the
   * heights are distinct and, under a clue, exactly clue buildings are visible.
   */
  lemma ResolvedLineOk(cells: seq<Tower>, clue: int, size: int)
    requires forall i :: 0 <= i < |cells| ==> Sound(cells[i], size) && cells[i].height != 0
    ensures LineOk(cells, clue, size) <==>
            NoneEmpty(cells, |cells|) && DistinctHeights(cells, |cells|) &&
            (clue == 0 || CountVisible(cells, |cells|) == clue)
  {
    CollectValid(cells, |cells|, size);
    CollectVisible(cells, |cells|, size);
    CollectResolvedLine(cells, |cells|, size);
  }
}
