/**
 * method_obvious (src/methods/obvious.c): a height that only one cell of a
 * line can take must be built there.  A first pass counts, per height, whether
 * no cell, exactly one cell or several cells allow it; a second pass narrows
 * every cell that allows a height of the first kind to those heights.
 */
module ObviousRule {
  import opened Bitmask
  import opened Towers
  import opened Geometry
  import opened Streets
  import opened Rules

  /** The accumulators of the first loop: heights allowed by exactly one cell, and by two or more. */
  datatype Tally = Tally(once: Bits, many: Bits)

  /**
   * One step of the first loop with a cell's candidates o: the heights of o not
   * yet seen twice toggle in once, and those of o that were seen before (and so
   * drop out of once) join many.
   */
  function Step(t: Tally, o: Bits): Tally
  {
    Tally(t.once ^ (o & !t.many), t.many | (o & !(t.once ^ (o & !t.many))))
  }

  /** The accumulators after the first n cells. */
  function TallyOf(cells: seq<Tower>, n: int): Tally
    requires 0 <= n <= |cells|
  {
    if n == 0 then Tally(0, 0) else Step(TallyOf(cells, n - 1), cells[n - 1].options)
  }

  /** How many of the first n cells allow height h. */
  function Count(cells: seq<Tower>, n: int, h: int): (c: nat)
    requires 0 <= n <= |cells|
    ensures c <= n
  {
    if n == 0 then 0 else Count(cells, n - 1, h) + (if Has(cells[n - 1].options, h) then 1 else 0)
  }

  /** The pass of method_obvious on a line: every cell narrowed with the heights only one cell allows. */
  function ObviousMasks(cells: seq<Tower>, size: int): seq<Option<Bits>>
    requires |cells| == size && 1 <= size <= 8
  {
    seq(size, k => Some(TallyOf(cells, size).once))
  }

  /**
   * method_obvious.  tower_set_options, which the source calls but does not
   * define, is taken to be tower_and_options; it is only called with a
   * nonempty `options & once`, which is narrowing with `once`.  The result is
   * always false: the source never sets its `changed` flag.
   */
  method Obvious(a: array<Tower>, st: Street, size: int) returns (changed: bool)
    requires 1 <= size <= 8 && Placed(st, size, a.Length)
    modifies a
    ensures a[..] == Applied(old(a[..]), st.cells, ObviousMasks(Gather(old(a[..]), st.cells), size), size, size)
    ensures !changed
  {
    ghost var g := a[..];
    ghost var cells := Gather(a[..], st.cells);
    ghost var masks := ObviousMasks(cells, size);
    changed := false;
    var once, many := TallyLine(a, st.cells, size);
    var i := 0;
    while i < size
      invariant 0 <= i <= size
      invariant a[..] == Applied(g, st.cells, masks, i, size)
    {
      AppliedStep(g, st.cells, masks, i, size);
      var k := st.cells[i];
      assert masks[i] == Some(once);
      NarrowHit(a, k, once, size);
      i := i + 1;
    }
  }

  /** The first loop of method_obvious: the accumulators over the cells of a line. */
  method TallyLine(a: array<Tower>, line: seq<int>, size: int) returns (once: Bits, many: Bits)
    requires 1 <= size <= 8 && |line| == size && Distinct(line, a.Length)
    ensures once == TallyOf(Gather(a[..], line), size).once && many == TallyOf(Gather(a[..], line), size).many
  {
    ghost var cells := Gather(a[..], line);
    var options: Bits := 0;
    once := 0;
    many := 0;
    var i := 0;
    while i < size
      invariant 0 <= i <= size
      invariant once == TallyOf(cells, i).once && many == TallyOf(cells, i).many
    {
      options := a[line[i]].options;
      ghost var once0, many0 := once, many;
      once := once ^ (options & !many);
      many := many | (options & !once);
      StepIs(once0, many0, options, once, many);
      i := i + 1;
    }
  }

  /** The two assignments of the first loop are one Step. */
  lemma StepIs(once: Bits, many: Bits, o: Bits, once': Bits, many': Bits)
    requires once' == once ^ (o & !many) && many' == many | (o & !once')
    ensures Step(Tally(once, many), o).once == once' && Step(Tally(once, many), o).many == many'
  {}

  /**
   * The body of the second loop on cell k: the cell's candidates that lie in
   * m, when there are any, become its candidates.  That is narrowing with m.
   */
  method NarrowHit(a: array<Tower>, k: int, m: Bits, size: int)
    requires 0 <= k < a.Length && 1 <= size <= 8
    modifies a
    ensures a[k] == Narrow(old(a[k]), m, size)
    ensures forall j :: 0 <= j < a.Length && j != k ==> a[j] == old(a[j])
  {
    var hit := a[k].options & m;
    HitIsNarrow(a[k], m, size);
    if hit != 0 {
      var c := AndOptions(a, k, hit, size);
    }
  }

  /** Narrowing with the candidates a cell shares with m is narrowing with m; sharing none leaves it alone. */
  lemma HitIsNarrow(t: Tower, m: Bits, size: int)
    requires 1 <= size <= 8
    ensures t.options & m != 0 ==> AndSpec(t, t.options & m, size) == Narrow(t, m, size)
    ensures t.options & m == 0 ==> Narrow(t, m, size) == t
  {
    AndAbsorb(t.options, m);
  }

  lemma AndAbsorb(o: Bits, m: Bits)
    ensures o & (o & m) == o & m
  {}

  // ---------------------------------------------------------------------------
  // What the first loop counts.

  /** One step of the first loop on one bit c of the masks. */
  lemma TallySingle(t: Tally, o: Bits, r: Tally, c: Bits)
    requires Single(c) && r == Step(t, o)
    ensures r.once & c != 0 <==> (t.once & c != 0) != (o & c != 0 && t.many & c == 0)
    ensures r.many & c != 0 <==> t.many & c != 0 || (o & c != 0 && r.once & c == 0)
  {}

  /** How many of the first n cells have bit c among their candidates. */
  function CountBit(cells: seq<Tower>, n: int, c: Bits): nat
    requires 0 <= n <= |cells|
  {
    if n == 0 then 0 else CountBit(cells, n - 1, c) + (if cells[n - 1].options & c != 0 then 1 else 0)
  }

  /** The first loop on one bit c: c is in `once` for one cell with c, and in `many` for two or more. */
  lemma {:induction false} TallyBitMeaning(cells: seq<Tower>, n: int, c: Bits)
    requires 0 <= n <= |cells| && Single(c)
    ensures TallyOf(cells, n).once & c != 0 <==> CountBit(cells, n, c) == 1
    ensures TallyOf(cells, n).many & c != 0 <==> CountBit(cells, n, c) >= 2
  {
    if n > 0 {
      TallyBitMeaning(cells, n - 1, c);
      TallySingle(TallyOf(cells, n - 1), cells[n - 1].options, TallyOf(cells, n), c);
    }
  }

  /** Counting cells that allow h is counting cells with the bit of h. */
  lemma {:induction false} CountIsBit(cells: seq<Tower>, n: int, h: int)
    requires 0 <= n <= |cells| && 1 <= h <= 8
    ensures Count(cells, n, h) == CountBit(cells, n, Bit(h))
  {
    if n > 0 {
      CountIsBit(cells, n - 1, h);
    }
  }

  /**
   * After the first loop, height h is in `once` exactly when one cell allows
   * it, and in `many` exactly when two or more do.
   */
  lemma TallyMeaning(cells: seq<Tower>, n: int, h: int)
    requires 0 <= n <= |cells| && 1 <= h <= 8
    ensures Has(TallyOf(cells, n).once, h) <==> Count(cells, n, h) == 1
    ensures Has(TallyOf(cells, n).many, h) <==> Count(cells, n, h) >= 2
  {
    BitSingle(h);
    TallyBitMeaning(cells, n, Bit(h));
    CountIsBit(cells, n, h);
  }

  /** Two different cells among the first n allowing h make a count of at least two. */
  lemma {:induction false} CountTwo(cells: seq<Tower>, n: int, h: int, j: int, k: int)
    requires 0 <= j < k < n <= |cells|
    requires Has(cells[j].options, h) && Has(cells[k].options, h)
    ensures Count(cells, n, h) >= 2
  {
    if k < n - 1 {
      CountTwo(cells, n - 1, h, j, k);
    } else {
      CountOne(cells, n - 1, h, j);
    }
  }

  /** A cell among the first n allowing h makes a count of at least one. */
  lemma {:induction false} CountOne(cells: seq<Tower>, n: int, h: int, j: int)
    requires 0 <= j < n <= |cells| && Has(cells[j].options, h)
    ensures Count(cells, n, h) >= 1
  {
    if j < n - 1 {
      CountOne(cells, n - 1, h, j);
    }
  }

  // ---------------------------------------------------------------------------
  // What the pass does.

  /**
   * What the pass does to cell k: a cell allowing a height no other cell
   * allows keeps exactly those heights; any other cell is left alone.
   */
  lemma ObviousEffect(cells: seq<Tower>, size: int, k: int)
    requires |cells| == size && 1 <= size <= 8 && 0 <= k < size
    ensures !HasFloors(cells[k], TallyOf(cells, size).once) ==>
              Touched(cells, ObviousMasks(cells, size), size)[k] == cells[k]
    ensures HasFloors(cells[k], TallyOf(cells, size).once) ==> forall h :: 1 <= h <= 8 ==>
              (Has(Touched(cells, ObviousMasks(cells, size), size)[k].options, h) <==>
                 Has(cells[k].options, h) && Count(cells, size, h) == 1)
  {
    var once := TallyOf(cells, size).once;
    var r := Touched(cells, ObviousMasks(cells, size), size);
    assert r[k] == Narrow(cells[k], once, size);
    forall h | 1 <= h <= 8 ensures HasFloors(cells[k], once) ==> (Has(r[k].options, h) <==> Has(cells[k].options, h) && Count(cells, size, h) == 1) {
      AndHas(cells[k].options, once, h);
      TallyMeaning(cells, size, h);
    }
  }

  /**
   * The pass leaves a resolved well-formed cell alone: it shares with `once`
   * either nothing or its own height.
   */
  lemma ObviousKeepsResolved(cells: seq<Tower>, size: int, k: int)
    requires |cells| == size && 1 <= size <= 8 && 0 <= k < size
    requires Ok(cells[k], size) && cells[k].height != 0
    ensures Touched(cells, ObviousMasks(cells, size), size)[k] == cells[k]
  {
    NarrowOk(cells[k], TallyOf(cells, size).once, size);
  }

  /** The pass loses no solution of the line: a height only one cell allows is that cell's height. */
  lemma ObviousSound(sol: seq<int>, cells: seq<Tower>, size: int)
    requires 1 <= size <= 8 && Solution(sol, cells, size)
    requires forall k :: 0 <= k < size ==> Ok(cells[k], size)
    ensures Solution(sol, Touched(cells, ObviousMasks(cells, size), size), size)
  {
    forall k | 0 <= k < size && HasFloors(cells[k], TallyOf(cells, size).once)
      ensures Has(TallyOf(cells, size).once, sol[k])
    {
      ObviousKeeps(sol, cells, size, k);
    }
    KeptSolution(sol, cells, ObviousMasks(cells, size), size);
  }

  /**
   * A cell sharing a height h with `once` is the only cell allowing h; the
   * solution puts h somewhere, so there, and its height in the solution is one
   * of `once`.
   */
  lemma ObviousKeeps(sol: seq<int>, cells: seq<Tower>, size: int, k: int)
    requires 1 <= size <= 8 && Solution(sol, cells, size) && 0 <= k < size && Ok(cells[k], size)
    requires HasFloors(cells[k], TallyOf(cells, size).once)
    ensures Has(TallyOf(cells, size).once, sol[k])
  {
    var h := SharedHeight(cells[k], TallyOf(cells, size).once, size);
    TallyMeaning(cells, size, h);
    var j := Place(sol, size, h);
    assert Has(cells[j].options, h);
    if j != k {
      OnlyCell(cells, size, h, j, k);
    }
  }

  /** A candidate of a well-formed cell that m also has. */
  lemma SharedHeight(t: Tower, m: Bits, size: int) returns (h: int)
    requires 1 <= size <= 8 && Ok(t, size) && HasFloors(t, m)
    ensures 1 <= h <= size && Has(t.options, h) && Has(m, h)
  {
    var o := t.options & m;
    AndWithin(t.options, m, size);
    NonEmptyHasHeight(o, size);
    h :| 1 <= h <= size && Has(o, h);
    AndHas(t.options, m, h);
  }

  /** The cell a permutation gives height h. */
  lemma Place(sol: seq<int>, size: int, h: int) returns (j: int)
    requires Permutation(sol, size) && 1 <= h <= size
    ensures 0 <= j < size && sol[j] == h
  {
    assert h in sol;
    j :| 0 <= j < size && sol[j] == h;
  }

  /** Two different cells allowing h leave h no count of one. */
  lemma OnlyCell(cells: seq<Tower>, size: int, h: int, j: int, k: int)
    requires 0 <= j < size && 0 <= k < size == |cells| && j != k
    requires Has(cells[j].options, h) && Has(cells[k].options, h)
    ensures Count(cells, size, h) >= 2
  {
    if j < k {
      CountTwo(cells, size, h, j, k);
    } else {
      CountTwo(cells, size, h, k, j);
    }
  }
}
