# WFC-world-2024 tile-map generator, modelled in Dafny

This project models the core of the Unity tile-map generator WFC-world-2024.
The generator fills a 30 x 30 map with tiles from a catalog of 39 by wave
function collapse. Once the map is complete, it raises the ground behind
cliff edges.

- **The cells.** Each cell (`Tile`) keeps its list of possible tiles (its domain).
  It also keeps:
  - a collapsed flag;
  - the chosen tile;
  - an elevation level;
  - a "has been raised" flag.
- **The rule table.** `TileRuleList` gives every tile four edge codes and four
  blacklist codes (one per side), and a selection weight. Two sides may touch
  when their edge codes are equal and their blacklist codes are not the same
  nonzero value.
- **The solver step.** Each frame, `waveFunctionCollapse.Update` performs one step:
  - it picks an uncollapsed cell of lowest entropy, breaking ties with a random index;
  - it collapses that cell by a weighted random draw over the tiles not yet tried
    there from the current state;
  - it propagates the constraint depth-first with a stack; a neighbour whose
    domain empties is a contradiction;
  - it pushes a snapshot (`changesMade`) of the map;
  - on a contradiction it undoes 20 steps, then skips states that were already
    reverted to more than once, and reverts to the state it reaches. It restarts
    from scratch when too few states remain or too many undos have happened.
- **The elevation pass.** Once every cell is collapsed, the next frame runs the
  elevation pass (`raiseElevation`). For every unmarked cliff edge, the pass:
  - collects its cliff line by a breadth-first walk along cliff edges;
  - from each straight cliff of the line, walks toward the cliff's back and adds
    one level to each cell it reaches that it has not listed yet.

Modules, in dependency order:

- `TileRules` (rules.dfy): the three tables, the side numbering and the
  compatibility predicate.
- `CellSpec` (cellspec.dfy): value-level specifications of the two cell
  operations.
  - `Pick` is the weighted draw over the untried candidates.
  - `Survivors` is the arc-consistency filter of `constrain`.
  - Both come with lemmas that characterise them.
- `Board` (board.dfy): the `Tile` class, the grid (`array2<Tile>`) and the
  `Snapshot` class.
  - `Tile.Collapse` and `Tile.Constrain` are proved to compute exactly `Pick` and
    `Survivors`.
  - A snapshot holds its deep copy as immutable cell values.
- `Elevation` (elevation.dfy): the `RaiseElevation` class with the cliff-line
  search and the raise walks.
  - `FindCliffLine` is proved to compute exactly the breadth-first search
    `Search`, and `RaiseTiles` exactly the walk `Walk` from the straight-cliff
    seeds.
  - The predicates `Listed`, `Closed`, `Walking` and `Bumped` on map views of
    the grid state what those results mean.
- `Solver` (solver.dfy): the `WaveFunctionCollapse` class.
  - `Update` is split into selection, collapse, propagation, commit, undo and
    completion check, with the elevation pass as `RaiseAll`.
  - The history is a sequence of snapshots whose last entry is the top of the
    stack.
  - The snapshots' deep copies never alias the live grid.

Random numbers are parameters.
- `tieBreak(n)` and `draw(n)` stand for `UnityEngine.Random.Range(0, n)`.
- `RangeDraw` requires each to return a value in [0, n), or 0 when n is 0.
- The handle of the object instantiated for the collapsed cell is the parameter
  `spawned`.
- The handles that undoing destroys are recorded, in order, in the field
  `disposed`.

Two situations throw in the source. Each becomes an outcome of `StepResult`:
- `Stuck`: no cell is open when a step starts. The tie-break list is then empty
  and the source indexes it.
- `RaiseFailed`: a raise walk steps off the map. The source then indexes the map
  out of range, and the pass is not marked done.

A behaviour kept as written: when every tile of the selected cell's domain was
already tried from the current state, the draw finds no candidate and the cell
collapses to tile 0, whether or not tile 0 is possible there
(`CellSpec.AllTriedFallsBackToZero`). `CellSpec.CollapseChoosesUntried` proves
that this is the only way a tile outside the domain can be chosen.

## Model

| member | source | states |
|---|---|---|
| TileRules.TableShape | Assets/TileRuleList.cs:32-173 | the weight list and both rule tables have one row per tile (39), each rule row four sides |
| TileRules.Weight | Assets/TileRuleList.cs:37-77 | every weight is non-negative, and zero exactly for the path intersection (tile 21) |
| TileRules.EdgeCode | Assets/TileRuleList.cs:86-126 | edge codes lie in 0..6, and a cliff code (3 or more) occurs only on tiles 0..7 |
| TileRules.BlackCode | Assets/TileRuleList.cs:132-172 | blacklist codes lie in 0..3 |
| TileRules.SideOf | Assets/Tile.cs:166-169 | offset (0,1) is side 0 (up), (0,-1) side 1, (-1,0) side 2, (1,0) side 3 |
| TileRules.Opposite | Assets/Tile.cs:172-175 | the opposite side differs from the side and stays on the same axis |
| TileRules.OppositeInvolutive | Assets/Tile.cs:172-175 | taking the opposite side twice gives back the side |
| TileRules.CompatibleSymmetric | Assets/Tile.cs:184-190 | the edge/blacklist test gives the same answer seen from either cell across a unit offset |
| TileRules.GroundFitsGround | Assets/TileRuleList.cs:97 | ground has neutral codes on all sides, so it fits next to ground in every direction |
| TileRules.TowerRejectsTower | Assets/TileRuleList.cs:155 | a tower's blacklist code 1 on every side forbids a tower next to a tower |
| CellSpec.UntriedMembers | Assets/Tile.cs:101-109 | a tile is a candidate of the draw exactly when it is in the domain and (tile, x, y) was not tried |
| CellSpec.TotalWeight | Assets/Tile.cs:112-118 | the weight sum is non-negative and at least the first candidate's weight |
| CellSpec.SumOfWeights | Assets/Tile.cs:112-118 | summing the list of candidate weights gives the candidates' total weight |
| CellSpec.PickIsFirstReaching | Assets/Tile.cs:119-131 | the draw picks the first candidate whose running weight sum reaches the random value |
| CellSpec.PickInCandidates | Assets/Tile.cs:119-131 | a random value not above the total weight picks one of the candidates |
| CellSpec.CollapseChoosesUntried | Assets/Tile.cs:98-131 | with an in-range draw and some untried candidate, the chosen tile is in the domain and untried at this cell |
| CellSpec.AllTriedFallsBackToZero | Assets/Tile.cs:101-131 | when every domain tile was tried here, there is no candidate and the draw yields tile 0 |
| CellSpec.ScanRowPrefix | Assets/Tile.cs:180-205 | one row of the scan only appends to the safe list |
| CellSpec.ScanRowMembers | Assets/Tile.cs:180-205 | one row adds exactly the domain tiles compatible with that neighbour tile |
| CellSpec.ScanRowNoDup | Assets/Tile.cs:191-194 | the "not yet safe" test keeps the safe list free of duplicates |
| CellSpec.SurvivorsSaturated | Assets/Tile.cs:196-206 | once every domain tile is safe, the remaining neighbour tiles change nothing |
| CellSpec.SurvivorsMembers | Assets/Tile.cs:178-210 | the new domain holds exactly the old tiles supported by some neighbour tile, each once |
| CellSpec.SurvivorsSize | Assets/Tile.cs:178-211 | the filter never grows a domain, and keeps its size exactly when every tile is supported |
| CellSpec.EarlyStop | Assets/Tile.cs:196-206 | stopping when the safe list reaches the domain's size gives the same list as the full scan |
| Board.Tile.constructor | Assets/Tile.cs:25-40 | a new tile has every tile index possible in order, is uncollapsed, at level 0 and not raised |
| Board.Tile.FromCell | Assets/Tile.cs:63-71 | a clone carries the position, domain, flags, chosen tile and level of the original |
| Board.Tile.Directions | Assets/Tile.cs:74-93 | each unit offset is listed exactly when it stays on the map, and every listed offset leads onto the map |
| Board.Tile.DirectionsOrdered | Assets/Tile.cs:74-93 | the offsets come in the order (1,0), (-1,0), (0,1), (0,-1) |
| Board.Tile.Collapse | Assets/Tile.cs:98-143 | the result is the weighted draw over the untried domain tiles; the tile becomes collapsed with domain [chosen]; the attempt is appended to the snapshot's tried list |
| Board.Tile.ScanNeighbour | Assets/Tile.cs:180-205 | one pass of the inner loop extends the safe list to the filter over one more neighbour tile, or stops with the full filter once nothing can be removed |
| Board.Tile.Constrain | Assets/Tile.cs:147-212 | the new domain is the filter `Survivors`; the result is false exactly when a non-empty domain kept its size |
| Board.Tile.AddLevel | Assets/Tile.cs:50 | the level rises by one |
| Board.Tile.Raise | Assets/Tile.cs:58 | the tile is marked raised |
| Board.Snapshot.constructor | Assets/changesMade.cs:19-35 | the snapshot holds the values of every cell of the grid, the given object handle, zero reverts and no tried tiles |
| Board.Snapshot.GetMapTileInfo | Assets/changesMade.cs:37-48 | the result is a new grid of new tiles equal, cell by cell, to the stored copy |
| Board.Snapshot.RevertToThisState | Assets/changesMade.cs:53 | the revert count rises by one |
| Board.Snapshot.TryTile | Assets/changesMade.cs:56 | the attempt (tile, x, y) is appended to the tried list |
| Elevation.FacingEdge | Assets/raiseElevation.cs:58-61 | the edge the pass inspects on a neighbour is the side the rule table uses for that offset |
| Elevation.JoiningMembers | Assets/raiseElevation.cs:51-69 | a neighbour joins the line exactly when its offset is listed, it continues the cliff and it is not marked |
| Elevation.JoiningExactly | Assets/raiseElevation.cs:48-69 | over the tile's own directions, the joined neighbours are exactly the unmarked cells that continue the cliff |
| Elevation.ListedAppend | Assets/raiseElevation.cs:40-71 | appending cells that continue the line from an entry and were unmarked keeps the line well formed |
| Elevation.ClosedStep | Assets/raiseElevation.cs:40-71 | after visiting entry i, every cell continuing the line from the first i+1 entries is listed or was marked before |
| Elevation.MarkedStep | Assets/raiseElevation.cs:40-71 | visiting entry i makes the marked set the start set plus the first i+1 entries; either one more map cell is marked or fewer already-marked entries remain to visit, so the search ends |
| Elevation.WalkAppend | Assets/raiseElevation.cs:105-119 | appending the unlisted next cell of an entry, with that entry's direction, keeps the walk well formed |
| Elevation.ListedAppendStep | Assets/raiseElevation.cs:105-119 | appending the next cell lists the next cells of the first i+1 entries and leaves fewer unlisted cells |
| Elevation.SeedsWalking | Assets/raiseElevation.cs:84-102 | the straight cliffs with their back directions start a well-formed walk |
| Elevation.WalkGrow | Assets/raiseElevation.cs:108-118 | listing an unlisted on-map next cell keeps the walk state and adds one level to that cell |
| Elevation.WalkSkip | Assets/raiseElevation.cs:108-113 | skipping an entry whose next cell is listed keeps the walk state |
| Elevation.WalkLevels | Assets/raiseElevation.cs:105-119 | a pass leaves the levels of its straight-cliff seeds alone and raises every other cell by at most one |
| Elevation.BackOf | Assets/raiseElevation.cs:25-30 | the back of a straight cliff is a unit offset |
| Elevation.Seeds | Assets/raiseElevation.cs:84-102 | the seeds are entries of the line holding straight cliffs (tiles 4..7), no more of them than entries |
| Elevation.SeedsComplete | Assets/raiseElevation.cs:84-102 | every straight-cliff entry of the line is a seed |
| Elevation.Bumped | Assets/raiseElevation.cs:117 | raising the walked cells keeps every position of the map |
| Elevation.RaiseElevation.constructor | Assets/raiseElevation.cs:20-31 | the pass works on the given grid itself, not on a copy |
| Elevation.RaiseElevation.JoinsAt | Assets/raiseElevation.cs:54-65 | the neighbour test holds exactly when the neighbour continues the cliff line and is not marked |
| Elevation.RaiseElevation.MarkRaised | Assets/raiseElevation.cs:43 | exactly the visited cell is added to the marked set; no chosen tile changes |
| Elevation.RaiseElevation.JoiningCells | Assets/raiseElevation.cs:48-69 | the neighbours appended are, in direction order, exactly the unmarked cells continuing the line |
| Elevation.RaiseElevation.Visit | Assets/raiseElevation.cs:43-69 | one visit marks the cell, then lists exactly its unmarked neighbours continuing the line |
| Elevation.SearchStep | Assets/raiseElevation.cs:40-71 | visiting entry i marks it and appends its joining neighbours, and the search goes on from entry i + 1 with the same result |
| Elevation.VisitShrinks | Assets/raiseElevation.cs:40-71 | a visit either marks one more cell of the map or leaves fewer marked entries to visit, so the search ends |
| Elevation.RaiseElevation.FindCliffLine | Assets/raiseElevation.cs:34-75 | the line is exactly the breadth-first search `Search` from (x, y), in its order; it starts at (x, y); each later entry continues it from an earlier entry and was unmarked; the line is closed; exactly its cells become marked |
| Elevation.RaiseElevation.StraightSeeds | Assets/raiseElevation.cs:84-102 | the seeds are the straight-cliff entries of the line, in order, each with the back of its cliff |
| Elevation.RaiseElevation.Bump | Assets/raiseElevation.cs:117 | exactly one cell gains one level |
| Elevation.RaiseElevation.Grow | Assets/raiseElevation.cs:111-118 | one walk step lists the next cell with the same direction and raises it one level |
| Elevation.UnlistedShrinks | Assets/raiseElevation.cs:111-118 | listing a new map cell leaves fewer map cells unlisted, so the walks end |
| Elevation.SeedDirsFixed | Assets/raiseElevation.cs:84-102 | a walk from the seeds keeps the seeds' back directions at its head |
| Elevation.RaiseElevation.WalkEntry | Assets/raiseElevation.cs:108-118 | handling one entry keeps the walk state and the outcome `Walk`; it fails exactly when the next cell is unlisted and off the map |
| Elevation.RaiseElevation.WalkAll | Assets/raiseElevation.cs:105-119 | the walk loop returns exactly the outcome `Walk` of the seeds, raises each walked cell one level and leaves the marks and chosen tiles alone |
| Elevation.RaiseElevation.RaiseTiles | Assets/raiseElevation.cs:78-120 | the ok flag, working list and directions are exactly the outcome `Walk` from the straight-cliff seeds, in order; the list is a well-formed walk; levels are the old ones plus one on every walked cell; without failure every entry's next cell is listed; a failure names an entry whose next cell is off the map; marks and chosen tiles are unchanged |
| Solver.LowestUnique | Assets/waveFunctionCollapse.cs:69-78 | the lowest entropy of the open cells is determined by the grid |
| Solver.RowMajorUnique | Assets/waveFunctionCollapse.cs:81-92 | two lists in strict row-major order with the same members are equal |
| Solver.TiedListUnique | Assets/waveFunctionCollapse.cs:81-92 | the tie list is determined by the grid and the entropy |
| Solver.ScanLowestIsLowest | Assets/waveFunctionCollapse.cs:69-78 | the first scan ends with the lowest entropy of an open cell, or the cap 40 when none is open |
| Solver.ScanTiedIsTiedList | Assets/waveFunctionCollapse.cs:81-92 | the second scan lists, in row-major order and once each, exactly the uncollapsed cells of that entropy |
| Solver.SelectionSpec | Assets/waveFunctionCollapse.cs:67-92 | the scans' entropy and list are the lowest entropy and the tie list, and no other entropy and list are |
| Solver.TiedListIsMinimal | Assets/waveFunctionCollapse.cs:67-92 | every tied cell is open and of minimal entropy, and the list is empty exactly when no cell is open |
| Solver.EntropyShrinks | Assets/waveFunctionCollapse.cs:134-143 | narrowing a domain never raises the total entropy and lowers it when a domain on the map got smaller, so propagation ends |
| Solver.SurvivorsWithin | Assets/Tile.cs:178-210 | the filtered domain is a duplicate-free sublist of the old one, every tile of it supported |
| Solver.ArcAfter | Assets/waveFunctionCollapse.cs:114-146 | narrowing another cell, or narrowing a cell to keep all its tiles, preserves an arc that held |
| Solver.DirectionsAround | Assets/Tile.cs:74-93 | the directions of the tile at c list each unit offset leading onto the map exactly once |
| Solver.ConstrainStep | Assets/waveFunctionCollapse.cs:120-143 | constraining one neighbour keeps the scan invariant, pushing it exactly when its domain shrank |
| Solver.PropagateStep | Assets/waveFunctionCollapse.cs:114-146 | handling one popped cell keeps the propagation invariant |
| Solver.PoppedReversed | Assets/waveFunctionCollapse.cs:164-185 | the handles disposed by popping down to m entries are the placements of the popped snapshots in reverse order, top first |
| Solver.PoppedPush | Assets/waveFunctionCollapse.cs:150-185 | after one push, popping disposes first of the pushed snapshot's placement, then as before |
| Solver.UndoAfterPush | Assets/waveFunctionCollapse.cs:150-209 | an undo right after a push keeps a prefix of the old history, disposes of the placed object first and then of the old snapshots popped, and counts the undone steps or restarts as before the push |
| Solver.UndoBelowPush | Assets/waveFunctionCollapse.cs:150-177 | an undo after a push goes below both the pushed snapshot and the previous top, and destroys the just-placed object first |
| Solver.RaiseCell | Assets/waveFunctionCollapse.cs:240-247 | an unmarked cliff edge gets its line found and raised; afterwards a cliff edge is marked unless the walk left the map |
| Solver.ResetTiles | Assets/waveFunctionCollapse.cs:200-208 | every cell of the map becomes a new tile |
| Solver.WaveFunctionCollapse.constructor | Assets/waveFunctionCollapse.cs:47-60 | the map holds new tiles, each a freshly allocated object in the fresh-cell state, and the history one fresh snapshot of it with no placement |
| Solver.WaveFunctionCollapse.LowestEntropy | Assets/waveFunctionCollapse.cs:69-78 | the loop computes the scan `Lowest`, which is the lowest entropy of an open cell, or 40 when no cell is open |
| Solver.WaveFunctionCollapse.TiedCells | Assets/waveFunctionCollapse.cs:81-92 | the loop computes the scan `ScanTied`: in row-major order, exactly the uncollapsed cells of that entropy |
| Solver.WaveFunctionCollapse.Select | Assets/waveFunctionCollapse.cs:67-98 | the cell is entry tieBreak(count) of the tie list `Selection`, which is in range; a cell is found exactly when the list is non-empty, exactly when some cell is open, and it is open and of lowest entropy |
| Solver.WaveFunctionCollapse.CollapseAt | Assets/waveFunctionCollapse.cs:98-102 | the cell's domain becomes [chosen] and nothing else changes; chosen is the draw over untried tiles, untried and in the domain when a candidate exists; the attempt is recorded in the top snapshot |
| Solver.WaveFunctionCollapse.ConstrainAt | Assets/waveFunctionCollapse.cs:126-130 | only the neighbour's domain changes, to the filter against the current cell's domain |
| Solver.WaveFunctionCollapse.ConstrainDirection | Assets/waveFunctionCollapse.cs:120-143 | one neighbour is constrained and pushed when narrowed; an emptied domain aborts |
| Solver.WaveFunctionCollapse.ConstrainNeighbours | Assets/waveFunctionCollapse.cs:116-145 | after one popped cell, the domains only shrank; without abort, total entropy fell unless nothing was pushed, exactly the narrowed cells were pushed, and the cell is arc-consistent |
| Solver.WaveFunctionCollapse.Propagate | Assets/waveFunctionCollapse.cs:111-146 | the domains only shrink; on abort some domain is empty; otherwise none emptied and the start cell and every narrowed cell are arc-consistent with their neighbours |
| Solver.WaveFunctionCollapse.Commit | Assets/waveFunctionCollapse.cs:150 | a new snapshot of the map, with the given handle, is pushed on the history |
| Solver.WaveFunctionCollapse.UndoSteps | Assets/waveFunctionCollapse.cs:160-177 | the top 20 snapshots (all but the bottom one when fewer) are popped, counted and their objects disposed |
| Solver.WaveFunctionCollapse.SkipReverted | Assets/waveFunctionCollapse.cs:179-185 | snapshots reverted to more than once are popped while more than 20 remain; it stops at a state it may revert to |
| Solver.WaveFunctionCollapse.Revert | Assets/waveFunctionCollapse.cs:187-209 | the map becomes a fresh copy, of fresh tiles, of the target, whose revert count rises; any snapshot the history gains is fresh; restart happens exactly when at most 20 states remain or more than 300 undos were made, and then clears the history to one snapshot and resets the map |
| Solver.WaveFunctionCollapse.Undo | Assets/waveFunctionCollapse.cs:154-209 | the undo pops to a state that is not over-reverted, leaves a map of fresh tiles and no snapshot in the history that is not old or fresh, disposes the popped objects top first, bumps that state's revert count only, and either restores it or restarts |
| Solver.WaveFunctionCollapse.CheckComplete | Assets/waveFunctionCollapse.cs:213-225 | the result is true exactly when every cell is collapsed |
| Solver.WaveFunctionCollapse.Place | Assets/waveFunctionCollapse.cs:94-146 | only the domains, c's collapsed flag and chosen tile and the top snapshot's tried list may change; the drawn tile is appended to that list and c collapses to it; on abort some domain is empty, otherwise the propagation is consistent |
| Solver.WaveFunctionCollapse.Recover | Assets/waveFunctionCollapse.cs:154-209 | after a contradiction the map is replaced by one of fresh tiles; the just-placed object is destroyed first, then the popped snapshots' objects, top first; the undo stops where the undo loops stop; exactly that snapshot's revert count rises by one; the undo count grows by the steps undone, or the map restarts and the count is reset |
| Solver.WaveFunctionCollapse.Settle | Assets/waveFunctionCollapse.cs:148-225 | the step's snapshot is committed; without contradiction the map is unchanged, no revert count, undo count or disposal changes and the finished flag is the completion check; with one the undo happens with the effects `Recover` states; every snapshot in the history is old or fresh |
| Solver.WaveFunctionCollapse.Advance | Assets/waveFunctionCollapse.cs:94-225 | the tile drawn for c is appended to the old top snapshot's tried list; on a collapse c is collapsed to that tile, the propagation is consistent, a snapshot is pushed and no revert count, undo count or disposal changes; on a contradiction the undo or restart happens with the effects `Recover` states; every snapshot in the history is old or fresh |
| Solver.WaveFunctionCollapse.RaiseAll | Assets/waveFunctionCollapse.cs:232-249 | no chosen tile changes, marks only accumulate, and a pass that completes leaves every cliff edge marked raised |
| Solver.WaveFunctionCollapse.CollapseStep | Assets/waveFunctionCollapse.cs:65-226 | stuck exactly when no cell is open, changing nothing; a collapse happens at a lowest-entropy open cell; the finished flag is set exactly when the step finished the map; the map is the same array or one of fresh tiles, and every snapshot in the history is old or fresh |
| Solver.WaveFunctionCollapse.RaiseStep | Assets/waveFunctionCollapse.cs:229-262 | the pass runs over the finished map and is marked done exactly when it did not fail |
| Solver.WaveFunctionCollapse.Update | Assets/waveFunctionCollapse.cs:63-263 | a collapse step until the map is finished, then the elevation pass once, then nothing; the map stays well formed and the phase flags stay consistent; the map is the same array or one of fresh tiles, and every snapshot in the history is old or fresh, so a caller owning the solver can run the next frame |

## Left out

- Unity itself is not modelled: the `MonoBehaviour` life cycle, the prefab array `tiles`, `mapPrefabs`, `Instantiate` (position and rotation) and `GameObject.Destroy`. An instantiated object is a `Handle`, and destroying one is recorded in `disposed`.
- Destroying every placed object on a restart (waveFunctionCollapse.cs:206) is not recorded, since the model keeps no list of the objects on the map.
- The final repositioning of every prefab to `level * LEVEL_DIFF` (waveFunctionCollapse.cs:251-260) is left out, together with the float constants `TILE_SIZE` and `LEVEL_DIFF`: it only moves scene objects.
- `UnityEngine.Random.Range` is replaced by the parameters `tieBreak` and `draw`, constrained to the same ranges. Any value in range is allowed, with no claim about the distribution.
- The inspector-settable fields `REVERT_THRESH`, `REVERT_THRESH_OVERALL` and `NUM_TIMES_UNDO` are constants with their default values (1, 300, 20). The tile count and map size are fixed at 39 and 30.
- Exceptions are outcomes, not unwinding. `Stuck` and `RaiseFailed` stand for the index errors the source throws. For `Stuck` the model changes nothing, which matches the source because it throws before any change. For `RaiseFailed`, the levels and marks already written remain, as they do in the source.
- The field `abort` is a local flag. Every path through `Update` sets it back to false before returning.
- The cached `directions` field of `Tile` is not modelled: `Directions` returns a fresh sequence each time.
- The propagation stack holds positions instead of `Tile` references. Every tile knows its own position on the map, so the two are interchangeable.
- The clone in `Tile.clone` shares its possible-tiles list with the original. The source only ever replaces that list, never mutates it, so the snapshot is modelled as a value copy.
- cameraMove.cs is not part of this model.
- Solver.WaveFunctionCollapse.Update: proves that one frame keeps the map well formed and the phase flags consistent. It does not prove that the generation as a whole terminates or finishes, nor that `Stuck` cannot be reached.
- Solver.WaveFunctionCollapse.CollapseStep: states the outcome and that the selected cell was a lowest-entropy open cell. It does not carry over which tied cell the tie-break picked (stated by `Select`) nor the state after the collapse (stated by `Advance`).
- Solver.WaveFunctionCollapse.Propagate: states what the propagation guarantees: domains shrink, no domain empties without an abort, and narrowed cells are arc-consistent. It does not state which exact domains the depth-first order yields, nor, on an abort, anything beyond one domain being empty.
- Solver.WaveFunctionCollapse.RaiseAll: states that every cliff edge ends up marked and that no chosen tile changes. It does not state the resulting levels. `RaiseTiles` states the levels one cliff line's walks produce, but neither `RaiseCell` nor `RaiseAll` carries that across the pass.
- Solver.RaiseCell: states the marking of the cell. It does not state the levels the walks of its cliff line change.
- Solver.WaveFunctionCollapse.Advance: on a contradiction, does not state what became of the tiles of the abandoned map (their domains after the partial propagation): the map is replaced by a fresh one and they are no longer reachable.
- Solver.WaveFunctionCollapse.Place: may change the domain of every tile of the map. The new domains are stated through `Consistent` (shrunk, arcs consistent), not exactly, as for `Propagate`.
