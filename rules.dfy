/**
 * What the deduction rules of src/methods have in common.  A rule walks one
 * line and, cell by cell, either leaves the cell alone or, when the cell still
 * allows some height of a mask m it has worked out for that cell, narrows the
 * cell's candidates to those of m.  The model describes such a pass by one
 * optional mask per cell of the line (Touch), and the state of the grid's cell
 * array after the first n cells of the line (Applied).
 *
 * A solution of a line is an assignment of the heights 1..size to its cells,
 * each height once, that every cell allows.  A rule is sound for a line when
 * every mask it applies to a cell keeps that cell's height in every solution
 * (KeepsSolution).
 */
module Rules {
  import opened Bitmask
  import opened Towers
  import opened Geometry
  import opened Streets

  /** One cell after a rule: left alone, or narrowed with the cell's mask. */
  function Touch(t: Tower, m: Option<Bits>, size: int): Tower
    requires 0 <= size <= 8
  {
    if m.None? then t else Narrow(t, m.value, size)
  }

  /** A line of cells after a rule touched each with its own mask. */
  function Touched(cells: seq<Tower>, masks: seq<Option<Bits>>, size: int): (r: seq<Tower>)
    requires |masks| == |cells| && 0 <= size <= 8
    ensures |r| == |cells|
  {
    seq(|cells|, k requires 0 <= k < |cells| => Touch(cells[k], masks[k], size))
  }

  /** The grid's cells after the first n cells of line were touched, in line order. */
  function Applied(g: seq<Tower>, line: seq<int>, masks: seq<Option<Bits>>, n: int, size: int): (r: seq<Tower>)
    requires 0 <= n <= |line| == |masks| && 0 <= size <= 8 && Distinct(line, |g|)
    ensures |r| == |g|
    decreases n
  {
    if n == 0 then g
    else Applied(g, line, masks, n - 1, size)[line[n - 1] := Touch(g[line[n - 1]], masks[n - 1], size)]
  }

  /** Some cell among the first n of line has its candidates changed by the rule. */
  predicate Alters(g: seq<Tower>, line: seq<int>, masks: seq<Option<Bits>>, n: int, size: int)
    requires 0 <= n <= |line| == |masks| && 0 <= size <= 8 && Distinct(line, |g|)
  {
    exists k :: 0 <= k < n && Touch(g[line[k]], masks[k], size).options != g[line[k]].options
  }

  /**
   * After n cells, each of the first n cells of the line holds its touched
   * value, and every other cell of the grid is as it was.
   */
  lemma {:induction false} AppliedAt(g: seq<Tower>, line: seq<int>, masks: seq<Option<Bits>>, n: int, size: int)
    requires 0 <= n <= |line| == |masks| && 0 <= size <= 8 && Distinct(line, |g|)
    ensures forall k :: 0 <= k < n ==> Applied(g, line, masks, n, size)[line[k]] == Touch(g[line[k]], masks[k], size)
    ensures forall k :: n <= k < |line| ==> Applied(g, line, masks, n, size)[line[k]] == g[line[k]]
    ensures forall j :: 0 <= j < |g| && j !in line ==> Applied(g, line, masks, n, size)[j] == g[j]
    decreases n
  {
    if n > 0 {
      AppliedAt(g, line, masks, n - 1, size);
    }
  }

  /** The whole pass on the grid: the line's cells are the touched line, and nothing else changes. */
  lemma AppliedLine(g: seq<Tower>, line: seq<int>, masks: seq<Option<Bits>>, size: int)
    requires |line| == |masks| && 0 <= size <= 8 && Distinct(line, |g|)
    ensures Gather(Applied(g, line, masks, |line|, size), line) == Touched(Gather(g, line), masks, size)
    ensures forall j :: 0 <= j < |g| && j !in line ==> Applied(g, line, masks, |line|, size)[j] == g[j]
  {
    AppliedAt(g, line, masks, |line|, size);
  }

  /** The pass reports a change exactly when some cell of the line lost a candidate. */
  lemma AltersMeaning(g: seq<Tower>, line: seq<int>, masks: seq<Option<Bits>>, size: int)
    requires |line| == |masks| && 1 <= size <= 8 && Distinct(line, |g|)
    requires forall k :: 0 <= k < |line| ==> Ok(g[line[k]], size)
    ensures Alters(g, line, masks, |line|, size) <==>
              exists k :: 0 <= k < |line| && !Within(g[line[k]].options, Applied(g, line, masks, |line|, size)[line[k]].options)
  {
    var r := Applied(g, line, masks, |line|, size);
    AppliedAt(g, line, masks, |line|, size);
    forall k | 0 <= k < |line|
      ensures (Touch(g[line[k]], masks[k], size).options != g[line[k]].options) <==> !Within(g[line[k]].options, r[line[k]].options)
    {
      TouchOk(g[line[k]], masks[k], size);
      WithinBoth(g[line[k]].options, r[line[k]].options);
    }
  }

  /** Two masks each inside the other are equal. */
  lemma WithinBoth(a: Bits, b: Bits)
    requires Within(b, a)
    ensures Within(a, b) <==> a == b
  {}

  /** A pass over the first i cells has not yet reached cell i. */
  lemma AppliedAhead(g: seq<Tower>, line: seq<int>, masks: seq<Option<Bits>>, i: int, size: int)
    requires 0 <= i < |line| == |masks| && 0 <= size <= 8 && Distinct(line, |g|)
    ensures Applied(g, line, masks, i, size)[line[i]] == g[line[i]]
  {
    AppliedAt(g, line, masks, i, size);
  }

  /** The loop step of a rule: touching cell i of the line takes the pass from i cells to i + 1. */
  lemma AppliedStep(g: seq<Tower>, line: seq<int>, masks: seq<Option<Bits>>, i: int, size: int)
    requires 0 <= i < |line| == |masks| && 0 <= size <= 8 && Distinct(line, |g|)
    ensures Applied(g, line, masks, i, size)[line[i]] == g[line[i]]
    ensures Applied(g, line, masks, i + 1, size) ==
              Applied(g, line, masks, i, size)[line[i] := Touch(g[line[i]], masks[i], size)]
    ensures masks[i].None? ==> Applied(g, line, masks, i + 1, size) == Applied(g, line, masks, i, size)
    ensures Alters(g, line, masks, i + 1, size) <==>
              Alters(g, line, masks, i, size) || Touch(g[line[i]], masks[i], size).options != g[line[i]].options
  {
    AppliedAt(g, line, masks, i, size);
    if Alters(g, line, masks, i + 1, size) {
      var k :| 0 <= k < i + 1 && Touch(g[line[k]], masks[k], size).options != g[line[k]].options;
      if k < i {
        assert Alters(g, line, masks, i, size);
      }
    }
  }

  /** Cells with no mask change nothing: a loop may start late or stop early. */
  lemma {:induction false} AppliedSkip(g: seq<Tower>, line: seq<int>, masks: seq<Option<Bits>>, i: int, j: int, size: int)
    requires 0 <= i <= j <= |line| == |masks| && 0 <= size <= 8 && Distinct(line, |g|)
    requires forall k :: i <= k < j ==> masks[k].None?
    ensures Applied(g, line, masks, j, size) == Applied(g, line, masks, i, size)
    ensures Alters(g, line, masks, j, size) <==> Alters(g, line, masks, i, size)
    decreases j
  {
    if i < j {
      AppliedSkip(g, line, masks, i, j - 1, size);
      AppliedStep(g, line, masks, j - 1, size);
    }
  }

  /**
   * A rule's pass over a line in the source's own form: for i = 0 .. size-1,
   * the guarded narrowing of cell i with its mask when it has one.  The rules
   * whose loop does nothing but that (exclude, obvious) use this method; the
   * others walk the line themselves.
   */
  method NarrowLine(a: array<Tower>, line: seq<int>, masks: seq<Option<Bits>>, size: int) returns (changed: bool)
    requires 1 <= size <= 8 && |line| == |masks| && Distinct(line, a.Length)
    modifies a
    ensures a[..] == Applied(old(a[..]), line, masks, |line|, size)
    ensures changed == Alters(old(a[..]), line, masks, |line|, size)
  {
    ghost var g := a[..];
    changed := false;
    var i := 0;
    while i < |line|
      invariant 0 <= i <= |line|
      invariant a[..] == Applied(g, line, masks, i, size)
      invariant changed == Alters(g, line, masks, i, size)
    {
      if masks[i].Some? {
        var c := NarrowAt(a, line, masks, i, masks[i].value, size, g);
        changed := changed || c;
      } else {
        AppliedSkip(g, line, masks, i, i + 1, size);
      }
      i := i + 1;
    }
  }

  /**
   * The body of such a loop for a cell that has a mask: the guarded narrowing
   * of cell i (tower_has_floors, then tower_and_options) takes the pass from
   * i cells to i + 1, and the result says whether the cell changed.
   */
  method NarrowAt(a: array<Tower>, line: seq<int>, ghost masks: seq<Option<Bits>>, i: int, m: Bits, size: int, ghost g: seq<Tower>)
      returns (c: bool)
    requires 1 <= size <= 8 && 0 <= i < |line| == |masks| && Distinct(line, a.Length) && |g| == a.Length
    requires masks[i] == Some(m) && a[..] == Applied(g, line, masks, i, size)
    modifies a
    ensures a[..] == Applied(g, line, masks, i + 1, size)
    ensures Alters(g, line, masks, i + 1, size) <==> Alters(g, line, masks, i, size) || c
  {
    AppliedStep(g, line, masks, i, size);
    c := TryNarrow(a, line[i], m, size);
  }

  // ---------------------------------------------------------------------------
  // The same pass seen as writes of precomputed cells.  A rule that walks the
  // line itself keeps its loop in these terms: vals holds the touched cells,
  // and its quantifier fires only on an explicit Touch term, so the loop does
  // not unfold the narrowing of every cell it mentions.

  predicate TouchesAre(vals: seq<Tower>, g: seq<Tower>, line: seq<int>, masks: seq<Option<Bits>>, size: int)
    requires |line| == |masks| && 0 <= size <= 8 && Distinct(line, |g|)
  {
    |vals| == |line| &&
    forall k {:trigger Touch(g[line[k]], masks[k], size)} :: 0 <= k < |line| ==>
      vals[k] == Touch(g[line[k]], masks[k], size)
  }

  /** The grid after the first n cells of line were written with vals. */
  function Written(g: seq<Tower>, line: seq<int>, vals: seq<Tower>, n: int): (r: seq<Tower>)
    requires 0 <= n <= |line| == |vals| && Distinct(line, |g|)
    ensures |r| == |g|
    decreases n
  {
    if n == 0 then g
    else Written(g, line, vals, n - 1)[line[n - 1] := vals[n - 1]]
  }

  /** Some write among the first n changes the candidates of its cell. */
  predicate Differs(g: seq<Tower>, line: seq<int>, vals: seq<Tower>, n: int)
    requires 0 <= n <= |line| == |vals| && Distinct(line, |g|)
    decreases n
  {
    n > 0 && (Differs(g, line, vals, n - 1) || vals[n - 1].options != g[line[n - 1]].options)
  }

  /** Writing the touched cells is the pass, and a write that changes a cell is an alteration. */
  lemma {:induction false} WrittenIsApplied(g: seq<Tower>, line: seq<int>, masks: seq<Option<Bits>>, vals: seq<Tower>, n: int, size: int)
    requires 0 <= n <= |line| == |masks| && 0 <= size <= 8 && Distinct(line, |g|)
    requires TouchesAre(vals, g, line, masks, size)
    ensures Written(g, line, vals, n) == Applied(g, line, masks, n, size)
    ensures Differs(g, line, vals, n) <==> Alters(g, line, masks, n, size)
    decreases n
  {
    if n > 0 {
      WrittenIsApplied(g, line, masks, vals, n - 1, size);
      AppliedStep(g, line, masks, n - 1, size);
      assert vals[n - 1] == Touch(g[line[n - 1]], masks[n - 1], size);
      WrittenStep(g, line, vals, n - 1);
    }
  }

  /** The loop step in these terms; the cell written next still holds its old value. */
  lemma WrittenStep(g: seq<Tower>, line: seq<int>, vals: seq<Tower>, i: int)
    requires 0 <= i < |line| == |vals| && Distinct(line, |g|)
    ensures Written(g, line, vals, i)[line[i]] == g[line[i]]
    ensures Differs(g, line, vals, i + 1) <==> Differs(g, line, vals, i) || vals[i].options != g[line[i]].options
  {
    WrittenAt(g, line, vals, i);
  }

  lemma {:induction false} WrittenAt(g: seq<Tower>, line: seq<int>, vals: seq<Tower>, n: int)
    requires 0 <= n <= |line| == |vals| && Distinct(line, |g|)
    ensures forall k :: n <= k < |line| ==> Written(g, line, vals, n)[line[k]] == g[line[k]]
    decreases n
  {
    if n > 0 {
      WrittenAt(g, line, vals, n - 1);
    }
  }

  /** The touched line is such a sequence of writes. */
  lemma TouchesHold(g: seq<Tower>, line: seq<int>, masks: seq<Option<Bits>>, size: int)
    requires |line| == |masks| && 0 <= size <= 8 && Distinct(line, |g|)
    ensures TouchesAre(Touched(Gather(g, line), masks, size), g, line, masks, size)
  {}

  /** Writes that leave their cells as they were change nothing: a loop may start late or stop early. */
  lemma {:induction false} WrittenSkip(g: seq<Tower>, line: seq<int>, vals: seq<Tower>, i: int, j: int)
    requires 0 <= i <= j <= |line| == |vals| && Distinct(line, |g|)
    requires forall k :: i <= k < j ==> vals[k] == g[line[k]]
    ensures Written(g, line, vals, j) == Written(g, line, vals, i)
    ensures Differs(g, line, vals, j) <==> Differs(g, line, vals, i)
    decreases j
  {
    if i < j {
      WrittenSkip(g, line, vals, i, j - 1);
      WrittenSame(g, line, vals, j - 1);
    }
  }

  /** A write that leaves its cell as it was changes nothing. */
  lemma WrittenSame(g: seq<Tower>, line: seq<int>, vals: seq<Tower>, i: int)
    requires 0 <= i < |line| == |vals| && Distinct(line, |g|) && vals[i] == g[line[i]]
    ensures Written(g, line, vals, i + 1) == Written(g, line, vals, i)
    ensures Differs(g, line, vals, i + 1) <==> Differs(g, line, vals, i)
  {
    WrittenStep(g, line, vals, i);
  }

  /**
   * The body of a rule's loop for a cell it narrows with mask m: the guarded
   * narrowing of cell i takes the writes from i cells to i + 1.
   */
  method WriteAt(a: array<Tower>, line: seq<int>, ghost vals: seq<Tower>, i: int, m: Bits, size: int, ghost g: seq<Tower>)
      returns (c: bool)
    requires 1 <= size <= 8 && 0 <= i < |line| == |vals| && Distinct(line, a.Length) && |g| == a.Length
    requires vals[i] == Narrow(g[line[i]], m, size) && a[..] == Written(g, line, vals, i)
    modifies a
    ensures a[..] == Written(g, line, vals, i + 1)
    ensures Differs(g, line, vals, i + 1) <==> Differs(g, line, vals, i) || c
  {
    WrittenStep(g, line, vals, i);
    c := TryNarrow(a, line[i], m, size);
  }

  // ---------------------------------------------------------------------------
  // What every rule keeps.

  /** Touching a well-formed cell keeps it well formed, only removes candidates, and leaves a resolved cell alone. */
  lemma TouchOk(t: Tower, m: Option<Bits>, size: int)
    requires Ok(t, size)
    ensures Ok(Touch(t, m, size), size) && Narrower(Touch(t, m, size), t)
    ensures t.height != 0 ==> Touch(t, m, size) == t
  {
    if m.Some? {
      NarrowOk(t, m.value, size);
    }
  }

  /**
   * Whatever its masks, a pass over a line of a well-formed grid keeps every
   * cell well formed, only removes candidates, never changes a resolved cell,
   * and changes no cell off the line.
   */
  lemma AppliedOk(g: seq<Tower>, line: seq<int>, masks: seq<Option<Bits>>, size: int)
    requires 1 <= size <= 8 && |line| == |masks| && Distinct(line, |g|)
    requires forall j :: 0 <= j < |g| ==> Ok(g[j], size)
    ensures forall j :: 0 <= j < |g| ==>
              Ok(Applied(g, line, masks, |line|, size)[j], size) &&
              Narrower(Applied(g, line, masks, |line|, size)[j], g[j])
    ensures forall j :: 0 <= j < |g| && g[j].height != 0 ==> Applied(g, line, masks, |line|, size)[j] == g[j]
  {
    var r := Applied(g, line, masks, |line|, size);
    AppliedAt(g, line, masks, |line|, size);
    forall j | 0 <= j < |g|
      ensures Ok(r[j], size) && Narrower(r[j], g[j]) && (g[j].height != 0 ==> r[j] == g[j])
    {
      if j in line {
        var k :| 0 <= k < |line| && line[k] == j;
        TouchOk(g[j], masks[k], size);
      }
    }
  }

  /** Two passes in a row: candidates only shrink and resolved cells stay, from the first state to the last. */
  lemma NarrowerTrans(r: seq<Tower>, p: seq<Tower>, g: seq<Tower>)
    requires |r| == |p| == |g|
    requires forall j :: 0 <= j < |g| ==> Narrower(r[j], p[j]) && Narrower(p[j], g[j])
    ensures forall j :: 0 <= j < |g| ==> Narrower(r[j], g[j])
  {
    forall j | 0 <= j < |g| ensures Narrower(r[j], g[j]) {
      WithinTrans(r[j].options, p[j].options, g[j].options);
    }
  }

  lemma WithinTrans(a: Bits, b: Bits, c: Bits)
    requires Within(a, b) && Within(b, c)
    ensures Within(a, c)
  {}

  // ---------------------------------------------------------------------------
  // Solutions of a line.

  /** sol gives each of heights 1..size to exactly one of size cells. */
  predicate Permutation(sol: seq<int>, size: int)
  {
    |sol| == size &&
    (forall k :: 0 <= k < size ==> 1 <= sol[k] <= size) &&
    (forall j, k :: 0 <= j < k < size ==> sol[j] != sol[k]) &&
    (forall h :: 1 <= h <= size ==> h in sol)
  }

  /** sol is a solution of the line's candidates: a permutation each cell allows. */
  predicate Solution(sol: seq<int>, cells: seq<Tower>, size: int)
  {
    Permutation(sol, size) && |cells| == size &&
    forall k :: 0 <= k < size ==> Has(cells[k].options, sol[k])
  }

  /** The masks of a pass never remove the height a solution gives a cell they narrow. */
  predicate KeepsSolution(sol: seq<int>, cells: seq<Tower>, masks: seq<Option<Bits>>)
    requires |sol| == |cells| == |masks|
  {
    forall k :: 0 <= k < |cells| && masks[k].Some? && HasFloors(cells[k], masks[k].value) ==>
      Has(masks[k].value, sol[k])
  }

  /** A sound pass loses no solution of the line. */
  lemma KeptSolution(sol: seq<int>, cells: seq<Tower>, masks: seq<Option<Bits>>, size: int)
    requires 1 <= size <= 8 && |masks| == |cells| && Solution(sol, cells, size)
    requires KeepsSolution(sol, cells, masks)
    ensures Solution(sol, Touched(cells, masks, size), size)
  {
    var r := Touched(cells, masks, size);
    forall k | 0 <= k < size ensures Has(r[k].options, sol[k]) {
      if masks[k].Some? && HasFloors(cells[k], masks[k].value) {
        AndHas(cells[k].options, masks[k].value, sol[k]);
      }
    }
  }

  /** In a solution of well-formed cells, a resolved cell gets its own height. */
  lemma SolutionResolved(sol: seq<int>, cells: seq<Tower>, size: int, k: int)
    requires Solution(sol, cells, size) && 0 <= k < size && Ok(cells[k], size) && cells[k].height != 0
    ensures sol[k] == cells[k].height
  {
    OkResolved(cells[k], size);
  }
}
