/**
 * method_exclude (src/methods/exclude.c): a height already built somewhere on
 * a row or column cannot be built in another cell of it.  Only streets seen
 * from the top and the right are handled, one per row and one per column.
 */
module ExcludeRule {
  import opened Bitmask
  import opened Towers
  import opened Geometry
  import opened Streets
  import opened Rules

  /** The first loop after n cells: heights 1..size less the candidates of the resolved cells among them. */
  function FreeHeights(cells: seq<Tower>, n: int, size: int): Bits
    requires 0 <= n <= |cells| && 1 <= size <= 8
  {
    if n == 0 then Range(1, size)
    else
      var m := FreeHeights(cells, n - 1, size);
      if cells[n - 1].height != 0 then m & !cells[n - 1].options else m
  }

  /** One of the first n cells is resolved to height h. */
  predicate Built(cells: seq<Tower>, n: int, h: int)
    requires 0 <= n <= |cells|
  {
    exists k :: 0 <= k < n && cells[k].height == h
  }

  lemma BuiltNext(cells: seq<Tower>, n: int, h: int)
    requires 0 <= n < |cells|
    ensures Built(cells, n + 1, h) <==> Built(cells, n, h) || cells[n].height == h
  {
    if Built(cells, n + 1, h) && cells[n].height != h {
      var k :| 0 <= k < n + 1 && cells[k].height == h;
      assert Built(cells, n, h);
    }
  }

  /** The same mask for every cell of a line of n cells. */
  function Everywhere(m: Bits, n: nat): (masks: seq<Option<Bits>>)
    ensures |masks| == n && forall k :: 0 <= k < n ==> masks[k] == Some(m)
  {
    seq(n, k => Some(m))
  }

  /** The pass of method_exclude on a line: every cell narrowed with the free heights. */
  function ExcludeMasks(cells: seq<Tower>, size: int): seq<Option<Bits>>
    requires |cells| == size && 1 <= size <= 8
  {
    Everywhere(FreeHeights(cells, size, size), size)
  }

  /**
   * method_exclude.  A street seen from the bottom or the left is the reverse
   * of one seen from the top or the right and is left alone.  Otherwise every
   * cell is narrowed with the heights no resolved cell of the line holds, and
   * the result says whether some cell changed.
   */
  method Exclude(a: array<Tower>, st: Street, size: int) returns (changed: bool)
    requires 1 <= size <= 8 && Placed(st, size, a.Length)
    modifies a
    ensures st.side > 1 ==> !changed && a[..] == old(a[..])
    ensures st.side <= 1 ==>
              a[..] == Applied(old(a[..]), st.cells, ExcludeMasks(Gather(old(a[..]), st.cells), size), size, size) &&
              changed == Alters(old(a[..]), st.cells, ExcludeMasks(Gather(old(a[..]), st.cells), size), size, size)
  {
    if st.side > 1 {
      return false;
    }
    ghost var cells := Gather(a[..], st.cells);
    var options := GetMask(1, size);
    var i := 0;
    while i < size
      invariant 0 <= i <= size
      invariant options == FreeHeights(cells, i, size)
    {
      var t := a[st.cells[i]];
      if t.height != 0 {
        options := options & !t.options;
      }
      i := i + 1;
    }
    changed := NarrowLine(a, st.cells, Everywhere(options, size), size);
  }

  /** Height h is free after n cells exactly when it is a height of the grid that no resolved cell among them holds. */
  lemma {:induction false} FreeHeightsMeaning(cells: seq<Tower>, n: int, size: int, h: int)
    requires 0 <= n <= |cells| && 1 <= size <= 8
    requires forall k :: 0 <= k < n ==> Ok(cells[k], size)
    ensures Has(FreeHeights(cells, n, size), h) <==> 1 <= h <= size && !Built(cells, n, h)
  {
    if n == 0 {
      RangeHas(1, size, h);
    } else {
      FreeHeightsMeaning(cells, n - 1, size, h);
      BuiltNext(cells, n - 1, h);
      var t := cells[n - 1];
      var m := FreeHeights(cells, n - 1, size);
      if t.height != 0 {
        OkResolved(t, size);
        ClearHas(m, t.height, h);
      } else {
        assert FreeHeights(cells, n, size) == m;
      }
    }
  }

  /** Clearing the bit of height k from a mask removes height k and no other. */
  lemma ClearHas(m: Bits, k: int, h: int)
    requires 1 <= k <= 8
    ensures Has(m & !Bit(k), h) <==> Has(m, h) && h != k
  {
    if 1 <= h <= 8 {
      AndHas(m, !Bit(k), h);
      NotHas(Bit(k), h);
      BitHas(k, h);
    }
  }

  /**
   * What the pass does to cell k of a well-formed line: a cell that still has
   * a free candidate keeps exactly its candidates no resolved cell of the line
   * holds; the others, among them every resolved cell, are left alone.
   */
  lemma ExcludeEffect(cells: seq<Tower>, size: int, k: int)
    requires |cells| == size && 1 <= size <= 8 && 0 <= k < size
    requires forall j :: 0 <= j < size ==> Ok(cells[j], size)
    ensures cells[k].height != 0 ==> Touched(cells, ExcludeMasks(cells, size), size)[k] == cells[k]
    ensures !HasFloors(cells[k], FreeHeights(cells, size, size)) ==>
              Touched(cells, ExcludeMasks(cells, size), size)[k] == cells[k]
    ensures HasFloors(cells[k], FreeHeights(cells, size, size)) ==> forall h ::
              Has(Touched(cells, ExcludeMasks(cells, size), size)[k].options, h) <==>
                Has(cells[k].options, h) && !Built(cells, size, h)
  {
    var free := FreeHeights(cells, size, size);
    var r := Touched(cells, ExcludeMasks(cells, size), size);
    assert r[k] == Narrow(cells[k], free, size);
    NarrowOk(cells[k], free, size);
    if HasFloors(cells[k], free) {
      forall h ensures Has(r[k].options, h) <==> Has(cells[k].options, h) && !Built(cells, size, h) {
        FreeCandidate(cells, size, cells[k].options, h);
      }
    }
  }

  /** The free candidates of a mask inside heights 1..size are those no resolved cell holds. */
  lemma FreeCandidate(cells: seq<Tower>, size: int, o: Bits, h: int)
    requires |cells| == size && 1 <= size <= 8 && Within(o, LowMask(size))
    requires forall j :: 0 <= j < size ==> Ok(cells[j], size)
    ensures Has(o & FreeHeights(cells, size, size), h) <==> Has(o, h) && !Built(cells, size, h)
  {
    AndHas(o, FreeHeights(cells, size, size), h);
    FreeHeightsMeaning(cells, size, size, h);
    if Has(o, h) {
      InsideGrid(o, size, h);
    }
  }

  /** A candidate of a mask inside heights 1..size is at most size. */
  lemma InsideGrid(o: Bits, size: int, h: int)
    requires 1 <= size <= 8 && Within(o, LowMask(size)) && Has(o, h)
    ensures h <= size
  {
    AndHas(o, !LowMask(size), h);
    NotHas(LowMask(size), h);
    LowMaskHas(size, h);
  }

  /** Exclusion loses no solution of a well-formed line. */
  lemma ExcludeSound(sol: seq<int>, cells: seq<Tower>, size: int)
    requires 1 <= size <= 8 && Solution(sol, cells, size)
    requires forall k :: 0 <= k < size ==> Ok(cells[k], size)
    ensures Solution(sol, Touched(cells, ExcludeMasks(cells, size), size), size)
  {
    var free := FreeHeights(cells, size, size);
    forall k | 0 <= k < size && HasFloors(cells[k], free)
      ensures Has(free, sol[k])
    {
      if cells[k].height != 0 {
        SolutionResolved(sol, cells, size, k);
        OkResolved(cells[k], size);
      } else {
        FreeHeightsMeaning(cells, size, size, sol[k]);
        if Built(cells, size, sol[k]) {
          var j :| 0 <= j < size && cells[j].height == sol[k];
          SolutionResolved(sol, cells, size, j);
        }
      }
    }
    KeptSolution(sol, cells, ExcludeMasks(cells, size), size);
  }
}
