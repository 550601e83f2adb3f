# SkySkrapers constraint propagation, in Dafny

This project models the core of the SkySkrapers solver, a C program that
solves Skyscrapers puzzles.

A puzzle is an N×N grid (1 ≤ N ≤ 8) with an optional clue on each edge of
each row and column. The clue says how many buildings an observer at that edge
sees, since a taller building hides every lower one behind it.

The model keeps the solver's own data:
- **Cells** (`tower_t`): a candidate bitmask and a resolved height, with 0 meaning open.
- **Streets** (`street_t`): one line seen from one side. A street holds its clue, a
  validity flag and the statistics the rules read: where the tallest building
  may stand, the buildings certainly visible, the vacant cells, and the "hills"
  of the line.
- **The city** (`city_t`): a class holding the cell array, the street array and
  the two flag arrays.

On that data it models:
- the cell operations;
- the clue restrictions applied at load time;
- the hill scan;
- the validity and solved checks;
- the six deduction rules: exclude, obvious, first of two, staircase, step down and slope;
- the solving loop with its guess-and-restore search.

The code changes state in place, so the model keeps that form:
- The cells are an `array<Tower>` indexed `x + y * size`.
- Streets are values holding the indices of their cells.
- The city is a class whose methods carry `modifies` clauses.
- Every loop of the source is a `while` loop with invariants.

Each method is proved against a specification function of the old state, such
as `Applied`, `StairPass`, `ScanUpTo`, `Collect` or `LoadLines`. Lemmas about
those functions then state what the source promises:
- candidates only shrink;
- no cell becomes empty;
- resolved cells stay as they are;
- the masks the rules apply mean what their comments say;
- a solution compatible with the cells survives exclude and obvious.

Modules, by file:

| file | module | source |
|---|---|---|
| bitmask.dfy | Bitmask | candidate masks as `bv8` |
| towers.dfy | Towers | src/core/tower.c |
| geometry.dfy | Geometry | city_get_tower's rotation |
| views.dfy | Views | view_info_add / check_info_add |
| hills.dfy | Hills | update_hill's scan |
| streets.dfy | Streets | src/core/street.c |
| city.dfy | Grid | src/core/city.c |
| rules.dfy | Rules | narrowing a line by a list of masks (shared by the rules) |
| exclude.dfy, obvious.dfy, first_of_two.dfy, staircase.dfy, step_down.dfy, slope.dfy | ExcludeRule, ObviousRule, FirstOfTwoRule, StaircaseRule, StepDownRule, SlopeRule | src/methods/*.c |
| solver.dfy | Solver | src/skyskrapers.c, src/methods/bruteforce.c |
| examples.dfy | Examples | the first 4×4 puzzle of tests/test_solver.c |

## Model

| member | source | states |
|---|---|---|
| Towers.Init | src/core/tower.c:19-35 | a new cell is open (height 0) and its candidates are exactly the given mask |
| Towers.InitOk | src/core/tower.c:30-31 | a cell made with the grid's full mask is well formed, with candidates exactly 1..size |
| Towers.SetHeight | src/core/tower.c:73-82 | requires 1 ≤ h ≤ size and the cell open or already h; the cell becomes resolved to h with the single candidate h, no other cell changes, and the result is true iff the old height differed from h |
| Towers.SetHeightNarrows | src/core/tower.c:76-80 | resolving a cell to one of its candidates only removes candidates |
| Towers.AndSpecOptions | src/core/tower.c:109-111 | after intersecting with a mask, a height is a candidate iff it was one and the mask holds it |
| Towers.AndSpecHeight | src/core/tower.c:113-122 | when the intersection is the single height h ≤ size the cell becomes resolved to h; otherwise its height is unchanged |
| Towers.AndSpecOk | src/core/tower.c:106-125 | with a mask meeting the candidates, the intersection keeps the cell well formed (never empty), only removes candidates, and leaves a resolved cell as it is |
| Towers.AndSpecIdempotent | src/core/tower.c:106-125 | intersecting twice with the same mask is intersecting once |
| Towers.AndOptions | src/core/tower.c:106-125 | requires the mask to meet the candidates, as the assertion at line 109 does; narrows cell k to the intersection, touches no other cell, and returns true iff the candidates changed |
| Towers.NarrowOk | src/core/tower.c:99-125 | the guarded narrowing `has_floors && and_options` used by the rules: it keeps the cell well formed, only removes candidates, leaves resolved cells alone, takes the intersection when the mask meets the candidates and otherwise does nothing |
| Towers.TryNarrow | src/methods/exclude.c:40 | the guarded narrowing on the cell array: cell k becomes its guarded narrowing, no other cell changes, and the result is true iff the candidates changed |
| Towers.GetMinHeight | src/core/tower.c:142-159 | the upward scan returns the lowest candidate, or 0 when there is none |
| Towers.GetMaxHeight | src/core/tower.c:170-187 | the downward scan returns the highest candidate, or 0 when there is none |
| Bitmask.MinMaxMeaning | src/core/tower.c:141-187 | for a nonempty mask inside the full mask: 1 ≤ min ≤ max ≤ size, both are candidates, and no candidate lies below min or above max |
| Bitmask.MinMaxOfEmpty | src/core/tower.c:150-158 | an empty mask has min and max height 0 |
| Towers.MinMaxOfCell | src/core/tower.c:142-187 | a well-formed cell's candidates all lie between its min and max height, which are candidates in 1..size |
| Towers.GetMask | src/core/tower.c:190-204 | the loop builds exactly the mask of heights bottom..top (empty when bottom > top) |
| Bitmask.RangeHas | src/core/tower.c:190-204 | height h is in the mask of bottom..top iff bottom ≤ h ≤ top |
| Geometry.CellOf | src/core/city.c:336-362 | the rotated cell of (side, pos, index) lies inside the grid |
| Geometry.CellOfInjective | src/core/city.c:336-362 | for a fixed side and position, distinct indices give distinct cells |
| Geometry.LineDistinct | src/core/city.c:336-362 | every line's cells are distinct, in-range indices of the cell array |
| Geometry.StreetNumberInjective | src/core/city.c:58-65 | street number side·size + pos names one side and one position |
| Geometry.OnLine | src/core/city.c:336-362 | cell (x, y) lies on line (side, pos) iff pos is the position that line's rotation gives it, and then at the index the inverse rotation gives |
| Geometry.StreetsThroughMeaning | src/core/city.c:125-147 | the four street numbers flagged for cell (x, y) are exactly the streets whose line passes through (x, y) |
| Grid.City.GetTower | src/core/city.c:332-363 | the cell index of (side, pos, index) is x + y·size of the rotated coordinates |
| Grid.City.GetClue | src/core/city.c:326-329 | the clue stored in street side·size + pos, which is the street of that side and position |
| Streets.MakeRejectsSmallGrid | src/core/street.c:31 | on grids of size 1 to 3 the check as written accepts a side's first street exactly when the side number is below the size, so city_make's first rejected street is RIGHT for size 1, BOTTOM for size 2 and LEFT for size 3 |
| Streets.MakeAcceptsLargeGrid | src/core/street.c:31 | from size 4 on, the check as written accepts exactly the positions of the grid |
| Streets.Make | src/core/street.c:23-50 | a new street's i-th cell is the i-th cell of line (side, pos), its clue is 0, it is valid and its statistics are cleared |
| Grid.MakeStreets | src/core/city.c:58-65 | city_make's street loop builds street side·size + pos as a fresh street of that line for every side and position |
| Grid.City.constructor | src/core/city.c:23-68 | a new city of size n has the full mask, n² open cells with candidates 1..n, 4n fresh streets, both flag arrays cleared, and `changed` cleared |
| Streets.RestrictCellOk | src/core/street.c:123-161 | every clue restriction keeps a well-formed cell well formed |
| Streets.ClueOneMeaning | src/core/street.c:131-142 | with clue 1, cell 0 is resolved to size, and every other cell loses height size unless that would empty it |
| Streets.ClueSizeMeaning | src/core/street.c:143-147 | with clue size, cell i is resolved to i + 1 |
| Streets.ClueCapMeaning | src/core/street.c:148-160 | with 1 < clue < size, cell k with k + 1 < clue keeps only heights ≤ size − clue + 1 + k (skipped if that would empty it), and the other cells keep their candidates |
| Streets.ClueNegativeMeaning | src/core/city.c:164-206 | a negative clue, which city_load sends down its last branch, changes no candidate |
| Streets.Restrict | src/core/city.c:164-206 | the restriction of one line by its clue: it succeeds iff no tower_set_height assertion would fail, that is, no cell it resolves is already resolved to another height; on success each cell of the line is its restricted value; cells off the line never change |
| Streets.RestrictAll | src/core/street.c:143-147 | the clue-equals-size branch resolves cell i to i + 1; it fails exactly when some cell is resolved to another height |
| Streets.RestrictCapped | src/core/street.c:148-160 | the intermediate-clue branch caps each cell k by its guarded narrowing with the mask for heights ≤ size − clue + 1 + k |
| Streets.FastConstraint | src/core/street.c:123-161 | for a positive clue, the line's cells are restricted as Restrict states; for clue ≤ 0 nothing changes; cells off the line never change |
| Streets.HighestFirst | src/core/street.c:196-212 | the result is the first index that may still hold height size, or size − 1 when none may |
| Streets.HighestLast | src/core/street.c:215-234 | the result is the last index that may hold height size, scanning no further than the first cell resolved to size, or size − 1 when no reached cell may |
| Streets.HighestOrder | src/core/street.c:196-234 | highest_first ≤ highest_last |
| Streets.HighestFirstUnique | src/core/street.c:196-212 | the first-highest description names a single index |
| Streets.HighestLastAtTallest | src/core/street.c:215-234 | when a reachable cell is resolved to size, highest_last is that cell |
| Hills.ScanHillsOk | src/core/street.c:261-316 | on a line of well-formed cells, the hills lie in the scanned prefix, in increasing disjoint order, are at most (n + 1) / 2, each has an action mask with exactly `vacant` bits set, and the street's vacant count is the sum of the hills' |
| Hills.ActionMarksVacant | src/core/street.c:284-306 | for every hill and every cell i between its first and last, action bit i − first is set iff cell i was counted vacant at its step of the scan (the test at lines 293-304) |
| Hills.StoppedStays | src/core/street.c:265-267 | once the scan meets a cell resolved to size it stops, and later cells change nothing |
| Streets.HillScan | src/core/street.c:237-319 | the loop over the hill buffer yields exactly the closed hills, visible count and vacant count of the scan specification up to highest_last |
| Views.CollectValid | src/core/street.c:343-370 | the accumulator stays valid iff no cell of the prefix is empty and no two resolved cells share a height, and then its mask holds exactly the resolved heights seen |
| Views.CollectVisible | src/core/city.c:232-256 | the visible counter counts exactly the resolved cells taller than every cell before them, and `highest` is the tallest resolved height so far |
| Views.ThirdCheckRedundant | src/core/city.c:290-292 | every non-empty line has visible + foreground ≥ 1, so city_is_valid's third check never fires and its verdict is the street check's |
| Views.ResolvedLineOk | src/core/street.c:373-402 | a fully resolved line passes the check iff it has no empty cell, no repeated height, and, with a clue, exactly clue visible buildings |
| Streets.CheckValid | src/core/street.c:373-402 | the loop's verdict is the line check of Views on the street's cells |
| Streets.InvalidStays | src/core/street.c:343-370 | once the accumulator is invalid it stays invalid for the rest of the line |
| Streets.Update | src/core/street.c:178-189 | valid can only be cleared; the tallest-building indices are recomputed; when the line passes the check the statistics become those of the hill scan up to highest_last, and otherwise they are kept |
| Streets.CurrentStats | src/core/street.c:178-189 | refreshed statistics of a well-formed line are well formed: ordered hills inside the line, vacant equal to their sum, and 0 ≤ highest_first ≤ highest_last < size |
| Grid.City.Load | src/core/city.c:150-207 | street i takes clue i; the update and handle flags of exactly the streets with a nonzero clue are raised; the load succeeds iff restricting every street in order succeeds, and then the cells are that result and stay well formed |
| Grid.LoadLinesOk | src/core/city.c:164-206 | the load-time restrictions keep every cell well formed and leave resolved cells as they were |
| Grid.City.NotifyOfTowerChange | src/core/city.c:125-147 | exactly the flags of the four streets through (x, y) are raised; no other flag changes |
| Grid.City.IsDeadloop | src/core/city.c:318-323 | the result is true iff `changed` was clear; afterwards `changed` is clear and nothing else changes |
| Grid.City.Export | src/core/city.c:366-381 | row y, column x of the result is the height of cell (x, y) |
| Grid.City.CheckSide | src/core/city.c:259-297 | the verdict of one side's loop is true iff every street of that side passes |
| Grid.City.IsValid | src/core/city.c:259-297 | true iff every street's line passes the street check, which is also the verdict of city_is_valid's three view checks |
| Grid.City.IsSolved | src/core/city.c:300-315 | true iff the grid is valid and every cell is resolved |
| Grid.City.SolvedMeaning | src/core/city.c:300-315 | in a solved grid every line has distinct heights and, where it has a clue, shows exactly clue buildings |
| Grid.City.CopyFrom | src/core/city.c:99-122 | the destination's cells, both flag arrays, streets, mask and `changed` become the source's; the source is unchanged |
| Grid.Clone | src/core/city.c:99-122 | city_copy into a new city gives a fresh, well-formed city equal to the source |
| Rules.AppliedOk | src/methods/exclude.c:37-43 | narrowing a line by guarded masks keeps every cell well formed, only removes candidates, and leaves resolved cells alone |
| Rules.AltersMeaning | src/methods/exclude.c:40-42 | a rule reports a change iff some cell of its line lost a candidate |
| Rules.KeptSolution | src/methods/exclude.c:37-43 | narrowing that keeps each cell's solution height keeps a solution of the line |
| Rules.SolutionResolved | src/methods/exclude.c:32-34 | a solution agrees with every resolved cell |
| ExcludeRule.Exclude | src/methods/exclude.c:18-46 | for side > 1 nothing changes and the result is false; otherwise the line is narrowed by the free-heights mask and the result is true iff some cell changed |
| ExcludeRule.FreeHeightsMeaning | src/methods/exclude.c:27-35 | the mask holds height h iff 1 ≤ h ≤ size and no resolved cell of the line has height h |
| ExcludeRule.ExcludeEffect | src/methods/exclude.c:37-43 | resolved cells and cells lying wholly within resolved heights are untouched; every other cell loses exactly the resolved heights |
| ExcludeRule.ExcludeSound | src/methods/exclude.c:18-46 | every solution of the line that the cells allow is still allowed after exclude |
| ObviousRule.TallyLine | src/methods/obvious.c:26-31 | the first loop computes the once/many tally of the line |
| ObviousRule.TallyMeaning | src/methods/obvious.c:26-31 | bit h of `once` is set iff exactly one cell has candidate h, and bit h of `many` iff two or more do |
| ObviousRule.Obvious | src/methods/obvious.c:18-43 | the line is narrowed by `once` wherever it meets a cell; the result is always false, as `changed` is never assigned |
| ObviousRule.ObviousEffect | src/methods/obvious.c:33-40 | each cell meeting `once` keeps exactly the candidates no other cell has; other cells are untouched |
| ObviousRule.ObviousKeepsResolved | src/methods/obvious.c:35-38 | a resolved cell is never changed |
| ObviousRule.ObviousSound | src/methods/obvious.c:18-43 | every solution of the line that the cells allow is still allowed after obvious |
| FirstOfTwoRule.TwoMaskMeaning | src/methods/first_of_two.c:24-58 | only lines with clue 2 and an open first cell are touched, never at index 0. Cells are touched up to the first resolved cell taller than the first cell's max height. An open cell that may hold size gets {size} ∪ heights below that max and ends the scan; earlier open cells get the heights below it |
| FirstOfTwoRule.FirstOfTwo | src/methods/first_of_two.c:18-64 | the four nested loops narrow the grid as the street-by-street pass of those masks; the result, and the city's `changed` flag, are set iff some candidate was removed |
| FirstOfTwoRule.TwoPassOk | src/methods/first_of_two.c:47-58 | the pass keeps every cell well formed, only removes candidates, and leaves resolved cells alone |
| StaircaseRule.Staircase | src/methods/staircase.c:18-70 | with clue < 2, no vacant cell or vacant ≠ clue − visible, nothing changes and the result is false; otherwise every hill's banding is applied in order and the result is true iff some candidate was removed |
| StaircaseRule.StairMaskMeaning | src/methods/staircase.c:44-66 | a cell is narrowed iff its hill has a vacant cell, the cell lies in the hill at or before highest_first, and its action bit is set. Its mask is the base band max(bottom, shadow + 1)..top + 1 − vacant shifted up once per active cell before it, and it never reaches above top |
| StaircaseRule.StairMaskVacant | src/core/street.c:284-306 | on the hills of the scan, the banded cells are exactly the vacant cells of a hill with a vacant cell, up to highest_first |
| StaircaseRule.BandWithinTop | src/methods/staircase.c:50-62 | the k-th shifted band, k < vacant, lies within shadow + 1 + k..top ⊆ 1..size |
| StaircaseRule.StairPassOk | src/methods/staircase.c:54-66 | banding all hills keeps every cell well formed, only removes candidates, and changes no resolved cell and no cell off the line |
| StepDownRule.StepDown | src/methods/step_down.c:19-77 | with clue < 2, no vacant cell or clue − visible ≠ 1, nothing changes and the result is false; otherwise the step down is applied hill by hill and the result is true iff some candidate was removed |
| StepDownRule.DownMaskMeaning | src/methods/step_down.c:43-72 | a cell is narrowed iff its hill holds all the vacancy, the hill's shadow lies below its first cell's min height, the cell lies strictly after first and within the hill, is open, and has its action bit set. Its mask is heights below the first cell's max height, and the first cell is never narrowed |
| StepDownRule.DownMaskVacant | src/core/street.c:284-306 | on the hills of the scan, the stepped-down cells are exactly the open vacant cells after the first cell of a qualifying hill |
| StepDownRule.DownPassOk | src/methods/step_down.c:58-72 | the pass keeps every cell well formed, only removes candidates, and changes no resolved cell and no cell off the line |
| SlopeRule.SlopeFirstAgrees | src/methods/slope.c:46-70 | last_highest is find_highest_last's index. first_highest is find_highest_first's index when some cell may hold size, and 0 (where find_highest_first gives size − 1) when none may |
| SlopeRule.LineHills | src/methods/slope.c:92-143 | the inline scan, which walks the same steps as update_hill up to last_highest, yields well-formed hills on a line of well-formed cells |
| SlopeRule.SlopeLineOk | src/methods/slope.c:151-211 | the two branches as intended (each narrowing guarded by tower_has_floors) keep every cell well formed, only remove candidates, and change no resolved cell and no cell off the line |
| SlopeRule.SlopeLineAsWritten | src/methods/slope.c:151-211 | the two branches as written: the line aborts (None) only in a branch that narrows a cell by a mask missing all its candidates; otherwise the result is the guarded pass |
| SlopeRule.BandingCanMiss | src/methods/slope.c:169 | on one concrete 4×4 line with clue 3 the staircase branch runs and its band for cell 1 misses every candidate of that cell |
| SlopeRule.SlopeCanAbort | src/methods/slope.c:169 | on that line the as-written slope aborts in tower_and_options' assertion |
| SlopeRule.Slope | src/methods/slope.c:31-218 | the side/pos loops narrow the grid as the street-by-street guarded slope pass; the result, and the city's `changed` flag, are set iff some candidate was removed, and the grid stays well formed |
| Solver.StageOk | src/skyskrapers.c:20-28 | every handler of the table keeps the grid well formed and only removes candidates |
| Solver.FrontOk | src/skyskrapers.c:41-43 | exclude and obvious keep the grid well formed and only remove candidates |
| Solver.StepFlags | src/skyskrapers.c:33-53 | the step clears the handle flag of every street it visits, and a step that reports no progress leaves every flag clear |
| Solver.StepOk | src/skyskrapers.c:31-54 | a step keeps the grid well formed and only removes candidates |
| Solver.SolveStep | src/skyskrapers.c:31-54 | the loop over the streets does what the step specification does: visit streets in order, skip unflagged ones, clear each flag first, run exclude and obvious both, then the four handlers in order, stopping at the first progress |
| Solver.GetState | src/skyskrapers.c:59-68 | the driver's state is Invalid iff the grid fails city_is_valid and Solved iff it passes city_is_solved |
| Solver.Solve | src/skyskrapers.c:57-69 | the grid only loses candidates and stays well formed, and a true result means the grid is valid and fully resolved |
| Solver.FirstOpen | src/methods/bruteforce.c:24-34 | finds the first open cell scanning x then y, with every earlier cell resolved; when none is found the grid is complete |
| Solver.TriedMeaning | src/methods/bruteforce.c:39-54 | the heights tried are exactly the cell's candidates, in descending order |
| Solver.Guess | src/methods/bruteforce.c:42-51 | fixing an open cell to one of its candidates satisfies tower_set_height's preconditions; on success the grid is solved with that height, and on failure it is restored from the snapshot |
| Solver.Bruteforce | src/methods/bruteforce.c:19-58 | a true result means the grid is valid and fully resolved; a false result leaves cells, flags, mask and `changed` as on entry |
| Examples.AnswerRows | tests/test_solver.c:38-43 | a grid holding the expected rows exports them: cell (x, y) is resolved to row y, column x |
| Examples.AnswerSolved | tests/test_solver.c:31-44 | a city with the test's clues whose cells hold the expected rows passes city_is_valid and city_is_solved |

## Left out

- Output to stdout is not modelled: city_print, the fprintf trace lines of city_solve_step and city_solve, and main.c.
- Allocation is not modelled either: malloc/free, `must_free`, street_free and tower_free. Construction and copying become a constructor, array allocation and `Grid.Clone`.
- city_calc_iteration is not modelled.
- tower_copy is a value assignment of the `Tower` datatype and has no member of its own.
- street_set_clue depends on city_notify_of_street_change, which is not defined in the source. Only setting the clue is modelled, inside `Grid.City.Load`.
- The handler table passes a street to method_first_of_two and method_slope, which take the whole city. `Solver.RunRule` entries 0 and 3 run them grid-wide on the city, not on the one street.
- tower_set_options (obvious.c:38) is not defined in the source. It is modelled as tower_and_options by `ObviousRule.NarrowHit`.
- tower_make (city.c:50) is not defined in the source. It is modelled as tower_init (`Towers.Init`).
- city_get_state and the STATE_* constants are not defined in the source. The driver's state comes from city_is_valid and city_is_solved (`Solver.GetState`).
- `city_t` has no `changed` field, although city.c uses one. The model gives the class a `changed: bool` field.
- city_make ORs into `mask` without initialising it. The model starts it at 0, so the mask is the low `size` bits.
- The assertions of tower_set_height and tower_and_options abort while city_load restricts the lines. The model turns that abort into `ok == false` from `Grid.City.Load`, `Streets.Restrict` and `Streets.RestrictAll`; what the cells hold after a failed load is not stated.
- The abort of city_get_tower on a bad side, and its other argument assertions, become preconditions 0 ≤ side < 4 and 0 ≤ pos, index < size.
- street_copy copies the tower pointers of the source street, so a copied city's streets still point into the original city's cells. The model's streets hold cell indices, so `Grid.City.CopyFrom` gives an exact value copy, and this aliasing is not modelled.
- `Grid.City.constructor` checks streets against the four sides (0 ≤ side < 4) and so accepts sizes 1 to 3. street_make's assertion, as written, aborts on those sizes; see Findings.
- Solver.Solve: promises soundness only (a true result is a solved grid). Completeness is not proved: a false result says nothing about whether the puzzle has a solution.
- Solver.Bruteforce: likewise proves no completeness. A false result only restores the entry state.
- Nothing in src/skyskrapers.c, src/methods/bruteforce.c or src/core/city.c calls street_update or city_notify_of_tower_change, so the street-level rules run on whatever statistics their street holds.
- StaircaseRule.Staircase: requires only that the street's hills be well formed (`AllOk`), not that its statistics be current. `Streets.Update` and `Streets.CurrentStats` state what current statistics are.
- StepDownRule.StepDown: requires only well-formed hills, as Staircase does.
- FirstOfTwoRule.FirstOfTwo: only shape properties are proved. It keeps cells well formed, only removes candidates, and its masks mean what TwoMaskMeaning states. No lemma proves that it keeps every solution, as ExcludeSound and ObviousSound do for exclude and obvious.
- StaircaseRule.Staircase: likewise, only shape properties and the meaning of its masks are proved, not that it keeps every solution.
- StepDownRule.StepDown: likewise, only shape properties and the meaning of its masks are proved, not that it keeps every solution.
- SlopeRule.Slope: likewise, only shape properties are proved, not solution preservation. Slope models the guarded narrowing; the unguarded one as written is in Findings.
- Examples.AnswerSolved: shows only that a grid holding the expected rows passes city_is_solved under the test's clues. It does not show that Solve, started on those clues, ends with Export equal to the rows.
- The solver's speed, the iteration counters and the clock timing of the tests are not modelled.
- Integer widths need no modelling here: every value is bounded by size ≤ 8 and masks are `bv8`. `1 << (size - 1)` and the shifts of the rules stay inside eight bits.

## Findings

| source | as written | input that shows it | evidently intended | confidence | as-written member | corrected member |
|---|---|---|---|---|---|---|
| src/methods/slope.c:169 | The staircase and step-down branches of method_slope narrow an open cell with `tower_and_options` after checking only `height == 0`, also at line 205. They never check `tower_has_floors`, so a band that misses all of a cell's candidates fails the assertion at tower.c:109, or empties the cell when assertions are off. | Size 4, clue 3, line of open cells with candidates {2,3}, {1,4}, {1,3}, {1,4}. The scan finds one hill with three vacant cells, no certainly visible building and highest_first 1, so the staircase branch runs. Cell 1's band is {2,3}, which misses {1,4}. | Skip the narrowing when the band misses the cell, as method_staircase does (staircase.c:58) | not executed | SlopeRule.SlopeCanAbort | SlopeRule.SlopeLineOk |
| src/core/street.c:31 | street_make asserts `side < size`, where side is 0..3, so city_make aborts for every grid of size 1, 2 or 3, at the first street whose side is ≥ size: RIGHT for size 1, BOTTOM for size 2, LEFT for size 3. | size 3, side LEFT (3), pos 0 | `side < 4` (the four sides) | not executed | Streets.MakeRejectsSmallGrid | Streets.Make |

For the first row, `SlopeRule.SlopeLineAsWritten` is the as-written branch function, and `SlopeRule.BandingCanMiss` computes the hill and the band on that line. The model's `SlopeRule.Slope` uses the guarded pass.

For the second row, `Streets.MakeAccepts` is the check as written, with `Streets.MakeAcceptsLargeGrid` for sizes from 4 on. `Streets.Make` and `Grid.City.constructor` use the intended check.
