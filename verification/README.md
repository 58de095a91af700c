# Corridor-growing maze generator, modelled in Dafny

The generator grows a maze on a `width` by `height` grid out of straight
corridors. A *row* runs along x and a *column* runs along y. Each corridor is
a segment record with a weight, two end cells (`head` and `tail`) and two
liveness flags. Every visited cell carries the id of its row and the id of
its column.

Each `step` does the following:
- it takes the segments of one axis that still have an alive end (the axis
  alternates by a metronome bit);
- it ranks them so that weights closest to `TARGET_LENGTH` (5) come first;
- it picks one of the first `POPULATION_FUNC(n)` of them and one of its alive
  ends, and grows that end by one cell.

Growing an end (`connect_rc_to_new_cell`) does the following:
- it registers a one-cell perpendicular segment for the new cell
  (`initialise_new_rc`);
- it moves the end onto the new cell and writes both ids into it;
- it applies the *ahead rule*: when the cell two steps beyond the old end is
  off the grid or visited, the new end dies, and so does the facing end of
  that cell's own segment;
- it applies the *collateral checks*: for each visited perpendicular
  neighbour of the new cell, the end of that neighbour's perpendicular
  segment that faces the new cell dies.

`generate_display_cells` turns the state into one `[bottom, right]` wall pair
per cell.

The project has six modules:
- `MazeModel` (`maze_model.dfy`) is the state as a value. One extension is the
  pure function `Extend`, built in the same stages as the source. The module
  also holds the invariant `Inv` and the lemmas that `Extend` preserves it:
  - every cell is unvisited or carries two registered ids;
  - every segment is a straight run of `weight` cells whose two end cells
    carry its id;
  - every alive end points at an on-grid, unvisited cell.
- `Selection` (`selection.dfy`) covers the population, the stable ranking,
  `POPULATION_FUNC` and the choice of end.
- `MazeEngine` (`engine.dfy`) is the class `Engine`, whose fields are the
  module globals (`maze_grid`, `rc_dicts`, `current_rc_ids`, `rc_metronome`).
  Its methods update them in place and are proved equal to the pure model.
- `MazeCoverage` (`coverage.dfy`) strengthens the invariant so that the
  registries track the grid exactly. Every cell on a segment's run carries
  the segment's id, every id a cell carries names a run that holds it, and a
  dead end faces a cell that is off the grid or visited. Every extension
  keeps this, and under it no segment of either axis can grow exactly when
  every cell is visited.
- `MazeDisplay` (`display.dfy`) is `generate_display_cells`, written as nested
  loops, together with what the walls mean for a valid state.
- `StepTrace` (`step_trace.dfy`) computes three steps on a 3 by 2 grid. It
  exhibits the finding below.

The docstring of `generate_display_cells` says it returns
`[right_edge, bottom_edge]`. The code appends `[bottom, right]`, and the
drawing code unpacks `bottom, right = cell`. The model follows the code.

## Model

| member | source | states |
|---|---|---|
| MazeModel.CellVisited | main.py:56-57 | a cell counts as visited exactly when its row id is set; under the invariant its column id is then set too (CellOk) |
| MazeModel.Open | main.py:83-84 | the test an end uses before growing: the cell exists and is not visited; AliveEndOpen and the DeadOk part of the tracking invariant are stated with it |
| MazeModel.NewSegment | main.py:66-85 | the record initialise_new_rc builds: weight 1, head and tail on the cell, each end alive exactly when the next cell that way is Open; ExtendNewSegment states it for every extension |
| MazeModel.AddSegment | main.py:66-87 | raises the axis counter and registers NewSegment under the new id, which it returns; Engine.InitialiseNewRc is proved equal to it and FreshIdUnused shows the id is new |
| MazeModel.Seed | main.py:26-48 | the initial state: only the origin visited, row 1 and column 1 as one-cell segments alive only at their heads, both counters at 1; SeedInv and SeedTracked state what holds of it |
| MazeModel.Extend | main.py:124-177 | connect_rc_to_new_cell on a valid request, as its three stages Grow, AheadRule and Collateral; what it does is stated by the Extend lemmas below and Engine.Connect is proved equal to it |
| MazeModel.GetMazeCell | main.py:50-54 | returns no cell exactly when the coordinate is off the grid, and otherwise the cell stored there |
| MazeModel.KillIn | main.py:154-159 | clearing one liveness flag keeps every registered id and every segment's weight and ends, and clears exactly the named end of the named segment |
| MazeModel.Grow | main.py:132-145 | the first stage of an extension: the chosen segment grows at end e onto the new cell, the perpendicular counter rises by one with a new one-cell segment under it, and the new cell receives both ids |
| MazeModel.AheadRule | main.py:147-159 | the new end dies exactly when the ahead cell is off the grid or visited, and the facing end of the ahead cell's own segment dies when that cell is visited; nothing else changes |
| MazeModel.Collateral | main.py:161-177 | after the collateral checks, a perpendicular end is alive exactly when it was alive and is not the end facing the new cell from a visited neighbour (offset +1 kills a tail, -1 a head) |
| MazeModel.SeedGrid | main.py:28-30 | a width by height grid whose only visited cell is the origin, holding row 1 and column 1 |
| MazeModel.SeedInv | main.py:25-48 | the initial state satisfies the invariant on any grid of at least 2 by 2, and the origin is the only visited cell |
| MazeModel.AliveEndOpen | main.py:93 | on a valid state the cell an alive end grows into is on the grid and unvisited, which is what the function assumes of its caller |
| MazeModel.ExtendFrame | main.py:124-145 | an extension keeps the dimensions, writes only the new cell, and moves only the perpendicular counter, by one |
| MazeModel.ExtendSameAxisShape | main.py:141-144 | on the growing axis no id is added and only the chosen segment changes shape: one cell heavier, with end e on the new cell |
| MazeModel.ExtendSameAxisFlags | main.py:147-159 | on the growing axis an end dies exactly when it is the new end facing a blocked ahead cell, or the facing end of the segment owning the ahead cell |
| MazeModel.ExtendPerpAxis | main.py:133-134 | on the perpendicular axis the only new id is the fresh one, and an end dies exactly when it faces the new cell from a visited neighbour |
| MazeModel.ExtendGrid | main.py:145 | after an extension the new cell holds the two ids, every other cell is unchanged, and so is the openness of every other cell |
| MazeModel.ExtendWritesCell | main.py:124-145 | on a valid state the written cell was on the grid and unvisited, gets the segment's id and the fresh perpendicular id, and is the only cell that changes |
| MazeModel.FreshIdUnused | main.py:67-69 | the id initialise_new_rc allocates (counter + 1) names no registered segment, so no collateral check can reach it |
| MazeModel.ExtendNewSegment | main.py:59-87 | an extension registers exactly one new perpendicular segment, under an unused id: the one-cell segment at the new cell whose ends are alive exactly when the next cells are on the grid and unvisited |
| MazeModel.ExtendGrowsSegment | main.py:141-159 | the chosen segment becomes one cell heavier and stays a straight run with end e moved one step; the new end is alive exactly when the ahead cell is on the grid and unvisited, and the other end is never revived |
| MazeModel.ExtendCellsOk | main.py:133-145 | after an extension every cell is still unvisited or carries two registered ids |
| MazeModel.ExtendSameAxisOk | main.py:141-159 | after an extension every segment of the growing axis is still a straight run whose end cells carry its id and whose alive ends point at open cells |
| MazeModel.ExtendPerpAxisOk | main.py:161-177 | after an extension every perpendicular segment, new or old, is still valid: an old end that pointed at the new cell was killed by a collateral check |
| MazeModel.ExtendInv | main.py:89-177 | every extension of an alive end preserves the whole invariant |
| MazeModel.ExtendVisits | main.py:145 | every extension visits exactly one cell that was unvisited before |
| MazeModel.AllCellsSize | main.py:29 | the grid has width * height cells |
| MazeModel.VisitedBound | main.py:29-30 | at most width * height cells are ever visited, so the number of successful steps is bounded |
| Selection.Population | main.py:181-183 | alive_rows or alive_cols: the registered segments of the axis with an alive end, in registry order (by AliveIn's contract) |
| Selection.Rank | main.py:186 | the sorted call: a stable sort by increasing distance from the target length, as RankIsStableSort proves |
| Selection.Pool | main.py:185-186 | sorted_population for an axis: the ranked population, holding exactly the segments that can grow (PoolMembers) |
| Selection.AliveIn | main.py:182-183 | the population lists every registered segment with an alive end exactly once, with its current record, in increasing id order (the registry's insertion order) |
| Selection.RankIsStableSort | main.py:186 | the ranking is sorted by distance from the target length, is a permutation of the population, and keeps equal distances in their original order |
| Selection.PopulationFunc | main.py:11-14 | 50 for up to 150 candidates, and above that the least r with 3r >= n (a third, rounded up) |
| Selection.Eligible | main.py:190 | the slice is never longer than the population, never empty when the population is not, and holds everything for up to 50 candidates |
| Selection.PoolMembers | main.py:182-188 | under the invariant the ranked pool holds exactly the segments of the axis that have an alive end, so it is empty exactly when none can grow |
| Selection.EligibleAreBest | main.py:186-190 | every eligible candidate is at least as close to the target length as every candidate the slice cuts off |
| Selection.EndOptions | main.py:192-195 | the options are exactly the alive ends, head first, and are non-empty exactly when the segment has an alive end |
| MazeEngine.Engine.constructor | main.py:25-48 | the engine starts in the initial state with the metronome at 0, and the class invariant holds |
| MazeEngine.Engine.InitialiseNewRc | main.py:59-87 | raises the axis counter, and registers under the new id a one-cell segment at the cell whose ends are alive exactly when the next cell in each direction exists and is unvisited |
| MazeEngine.Engine.GrowStage | main.py:124-145 | the in-place registration, growth and cell write equal the pure first stage Grow |
| MazeEngine.Engine.AheadStage | main.py:147-159 | the in-place ahead rule equals AheadRule |
| MazeEngine.Engine.CollateralStage | main.py:161-177 | the loop over the two collateral offsets equals Collateral after both offsets |
| MazeEngine.Engine.Connect | main.py:124-177 | the three stages together are the pure extension Extend |
| MazeEngine.Engine.ConnectRcToNewCell | main.py:89-177 | an unknown id or a dead end is refused and changes nothing; otherwise the state becomes Extend of the old state, exactly one more cell is visited, and the invariant is kept |
| MazeEngine.Engine.Advance | main.py:197-199 | connects the chosen alive end and toggles the metronome, keeping the invariant |
| MazeEngine.Turn | main.py:185 | the axis a step draws from: columns when the metronome is 1, rows otherwise |
| MazeEngine.Engine.Step | main.py:179-199 | step as written: reports done and changes nothing exactly when the metronome's axis has no alive segment, whatever the other axis holds; otherwise it extends the chosen eligible candidate at the chosen alive end, visits one more cell, toggles the metronome and keeps the invariant |
| MazeEngine.Engine.Choose | main.py:190-199 | the chosen eligible candidate is registered with an alive chosen end; the state becomes its extension at that end, one more cell is visited, the metronome toggles and the invariant holds |
| MazeEngine.AliveEnds | main.py:192-194 | the options built are exactly the alive ends of the chosen segment, head first |
| MazeEngine.PoolsEmptyIffFull | main.py:181-188 | in a tracked state the populations of both axes are empty exactly when every cell of the grid is visited |
| MazeEngine.Engine.StepEitherAxis | main.py:179-199 | step as intended: reports done exactly when every cell is visited (equivalently, when the axis it draws from has no candidate), changing nothing; otherwise it draws from the metronome's axis, or from the other axis when that one is empty, and extends the chosen candidate |
| MazeCoverage.SeedTracked | main.py:25-48 | the initial state is tracked: row 1 and column 1 are one-cell runs at the visited origin, and their dead tails face cells off the grid |
| MazeCoverage.ExtendSameAxisRuns | main.py:141-145 | after an extension every run of the growing axis is owned by its id, including the run grown onto the new cell, and every cell's id on that axis names a run holding it |
| MazeCoverage.ExtendPerpAxisRuns | main.py:124-145 | after an extension every perpendicular run, the new one-cell segment at the new cell included, is still owned by its id, and every cell's perpendicular id still names a run holding it |
| MazeCoverage.ExtendSameAxisDeadOk | main.py:147-159 | after an extension every dead end of the growing axis faces a cell off the grid or visited, including the ends the ahead rule kills |
| MazeCoverage.ExtendPerpAxisDeadOk | main.py:161-177 | after an extension every dead perpendicular end faces a cell off the grid or visited, including the new segment's ends and the ends the collateral checks kill |
| MazeCoverage.ExtendTracked | main.py:89-177 | every extension of an alive end of a tracked state leaves a tracked state |
| MazeCoverage.GapHasAliveHead | main.py:147-159 | a visited cell followed along an axis by an unvisited cell is the head of its segment on that axis, and that head is alive |
| MazeCoverage.UnvisitedLeavesAliveEnd | main.py:181-183 | in a tracked state an unvisited cell leaves some segment, on one of the two axes, with an alive head |
| MazeCoverage.FullGridStuck | main.py:181-183 | once every cell is visited no end of any segment is alive |
| MazeCoverage.Completeness | main.py:181-188 | in a tracked state no segment of either axis has an alive end exactly when every cell of the grid is visited |
| Selection.ChosenIsAlive | main.py:190-197 | what step hands to connect_rc_to_new_cell is a registered segment with its current record and an alive chosen end, so neither of its errors can arise from step |
| StepTrace.Start | main.py:25-48 | the initial 3 by 2 state, whose row population is row 1 alone, alive only at its head |
| StepTrace.FirstStep | main.py:124-177 | the first step (rows, choices 0 and 0) grows row 1 into (1, 0) and creates column 2 there |
| StepTrace.FirstPool | main.py:181-186 | the second step's ranked column population is column 1 and then column 2 |
| StepTrace.SecondStep | main.py:124-177 | the second step (columns, choices 0 and 0) grows column 1 into (0, 1), kills its head at the edge and creates row 2 |
| StepTrace.SecondPool | main.py:181-186 | the third step's ranked row population is row 1 and then row 2 |
| StepTrace.ThirdStep | main.py:124-177 | the third step (rows, choices 1 and 0) grows row 2 into (1, 1), creates the dead column 3 and kills the head of column 2 |
| StepTrace.ThirdPool | main.py:181-186 | after three steps no column has an alive end while rows 1 and 2 do |
| StepTrace.ThirdTracked | main.py:25-199 | the state after three steps is tracked, so it is a state the engine may be in |
| StepTrace.StopsEarly | main.py:185-188 | after three steps the metronome's axis, the columns, is empty, while both rows can still grow and (2, 0) and (2, 1) are unvisited |
| StepTrace.FallbackContinues | main.py:185-188 | in the same state the corrected step draws from the rows, which hold two candidates, and does not stop, since cells remain unvisited |
| MazeDisplay.WallsOf | maze_display.py:11-21 | the [bottom, right] pair of one cell: a wall unless the cell's id is truthy and the cell is not that segment's head; WallsMeaning states what this means for a valid state |
| MazeDisplay.GenerateDisplayCells | maze_display.py:2-25 | a wall pair for every cell of the grid, in the grid's shape: a right wall unless the cell's row goes on past it, a bottom wall unless its column does |
| MazeDisplay.InvRegistered | maze_display.py:14-19 | on a valid state every id the display looks up is registered, so no lookup fails |
| MazeDisplay.WallsMeaning | maze_display.py:11-21 | on a valid state an unvisited cell has both walls, and a visited cell has its right wall exactly when it is its row's head and its bottom wall exactly when it is its column's head |

## Left out

- The pygame window, the event loop, `display_display_cell_grid`, the timing
  and the `print` of progress and `steps` are not modelled. They only draw or
  report the state.
- The grid size is a constructor parameter instead of the fixed 140 by 80
  derived from the canvas size. At least 2 by 2 is required, so that the
  seed's alive head ends point at cells on the grid.
- The two `random.choice` calls become caller-supplied indices, bounded by
  `Step`'s precondition. Randomness itself is not modelled.
- Selection.PopulationFunc: the source computes `math.ceil(n * (1/3))` in
  floating point. The model uses the exact ceiling of n/3 and does not model
  floating-point rounding.
- MazeModel.KillIn: clearing a flag under an id that is not registered is a
  `KeyError` in the source and a no-op in the model. Under the invariant every
  id in a cell is registered, so the case never arises.
- MazeDisplay.GenerateDisplayCells: requires that every truthy id in the
  grid is registered, so the `KeyError` the source raises for a missing id
  (maze_display.py, lines 14 and 19) is not modelled. Under the invariant
  `InvRegistered` discharges this requirement.
- MazeEngine.Engine.ConnectRcToNewCell: the `ValueError` for a dead end and
  the `KeyError` for an unknown id become a `Refused` outcome with the state
  unchanged. Exceptions are not modelled.
- Python's negative list indexing on `maze_grid` is not modelled. Under the
  invariant the written cell is always on the grid.
- The grid is a sequence field that is reassigned as a whole. The sharing of
  per-column Python lists is not modelled.
- MazeEngine.Engine.Advance toggles the metronome before connecting rather
  than after. The connection never reads the metronome, so the final state
  is the same.
- MazeEngine.Engine.StepEitherAxis: when the metronome's axis is empty, the
  corrected step draws from the other axis. This is one reading of the
  intended behaviour. Continuing until both axes are empty is what matters.

## Findings

| source | as written | input that shows it | evidently intended | confidence | as-written member | corrected member |
|---|---|---|---|---|---|---|
| main.py:185-188 | `step` returns True, which the main loop reads as "generation has finished", as soon as the axis the metronome names has no segment with an alive end. It leaves the metronome as it is, so every later call returns True as well | a 3 by 2 grid with the random choices (0, 0), (0, 0), (1, 0). After three steps no column can grow, rows 1 and 2 can, and cells (2, 0) and (2, 1) are unvisited | stop only when neither axis can grow, which is exactly when every cell is visited; otherwise grow the other axis | not executed; follows from the proved contract of `step` and the states computed for this input | StepTrace.StopsEarly | MazeEngine.Engine.StepEitherAxis |
